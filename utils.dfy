/**
 * String utilities of utils/utils.c: substring replacement, drive names,
 * boolean words, string validation, shell unquoting, `st_mode` file types
 * and path joining.
 */
module Utils {
  import opened Wrappers
  import StringLists

  // ---------------------------------------------------------------------------
  // guestfs_int_replace_string
  // ---------------------------------------------------------------------------

  /** `s1` starts at offset `i` of `str` (`strncmp (&str[i], s1, strlen (s1)) == 0`). */
  function OccursAt(str: string, i: nat, s1: string): (b: bool)
    ensures b ==> i + |s1| <= |str| && (s1 != "" ==> str[i] == s1[0])
  {
    i + |s1| <= |str| && str[i..i + |s1|] == s1
  }

  /**
   * What position `i` of `str` contributes: `s2` where `s1` starts, else the
   * character itself.  An empty `s1` starts everywhere.  The first pass
   * counts exactly the piece's length for the position.
   */
  function Piece(str: string, s1: string, s2: string, i: nat): (r: string)
    requires i < |str|
    ensures s1 == "" ==> r == s2
    ensures CountedSize(str, s1, s2, i + 1) == CountedSize(str, s1, s2, i) + |r|
  {
    if OccursAt(str, i, s1) then s2 else [str[i]]
  }

  /**
   * The output for the first `k` positions of `str`, every position visited
   * once; it is exactly as long as the first pass counts.
   */
  function Replaced(str: string, s1: string, s2: string, k: nat): (r: string)
    requires k <= |str|
    ensures |r| == CountedSize(str, s1, s2, k)
  {
    if k == 0 then "" else Replaced(str, s1, s2, k - 1) + Piece(str, s1, s2, k - 1)
  }

  /**
   * The size the first pass counts for the first `k` positions: at least
   * one per position when `s2` is not empty, at most one when `s2` has at
   * most one character.
   */
  function CountedSize(str: string, s1: string, s2: string, k: nat): (n: nat)
    requires k <= |str|
    ensures |s2| >= 1 ==> n >= k
    ensures |s2| <= 1 ==> n <= k
  {
    if k == 0 then 0 else CountedSize(str, s1, s2, k - 1) + (if OccursAt(str, k - 1, s1) then |s2| else 1)
  }

  /** Counted sizes only grow along the string. */
  lemma {:induction false} CountedSizeMonotone(str: string, s1: string, s2: string, j: nat, k: nat)
    requires j <= k <= |str|
    ensures CountedSize(str, s1, s2, j) <= CountedSize(str, s1, s2, k)
    decreases k - j
  {
    if j < k {
      CountedSizeMonotone(str, s1, s2, j, k - 1);
    }
  }

  /** One position of the second pass, and the room it needs in a buffer of the counted size. */
  lemma ReplacedStep(str: string, s1: string, s2: string, i: nat)
    requires i < |str|
    ensures Replaced(str, s1, s2, i + 1) == Replaced(str, s1, s2, i) + Piece(str, s1, s2, i)
    ensures |Replaced(str, s1, s2, i + 1)| <= CountedSize(str, s1, s2, |str|)
  {
    CountedSizeMonotone(str, s1, s2, i + 1, |str|);
  }

  /**
   * One step of the second pass of `guestfs_int_replace_string`: writes what
   * position `i` contributes at offset `n` of the buffer and returns the new
   * offset.
   */
  method PutPiece(ret: array<char>, n: nat, str: string, s1: string, s2: string, i: nat) returns (next: nat)
    requires i < |str| && n + |Piece(str, s1, s2, i)| <= ret.Length
    modifies ret
    ensures next == n + |Piece(str, s1, s2, i)|
    ensures ret[..next] == old(ret[..n]) + Piece(str, s1, s2, i)
    ensures ret[next..] == old(ret[next..])
  {
    if i + |s1| <= |str| && str[i..i + |s1|] == s1 {
      StringLists.CopyInto(ret, n, s2);
      next := n + |s2|;
    } else {
      PutChar(ret, n, str[i]);
      next := n + 1;
    }
  }

  /** The first pass of `guestfs_int_replace_string`: the size of the result. */
  method CountReplaced(str: string, s1: string, s2: string) returns (n: nat)
    ensures n == CountedSize(str, s1, s2, |str|)
  {
    n := 0;
    var i := 0;
    while i < |str|
      invariant i <= |str|
      invariant n == CountedSize(str, s1, s2, i)
    {
      if i + |s1| <= |str| && str[i..i + |s1|] == s1 {
        n := n + |s2|;
      } else {
        n := n + 1;
      }
      i := i + 1;
    }
  }

  /**
   * `guestfs_int_replace_string`: a first pass counts the result size, a
   * second fills a buffer of that size.  The scan advances one position
   * after a match as well, so the characters of a match are visited again.
   */
  method ReplaceString(str: string, s1: string, s2: string) returns (r: string)
    ensures r == Replaced(str, s1, s2, |str|)
    ensures |r| == CountedSize(str, s1, s2, |str|)
  {
    var n := CountReplaced(str, s1, s2);
    ghost var total := n;

    var ret := new char[n + 1];
    var i := 0;
    n := 0;
    while i < |str|
      invariant i <= |str|
      invariant n == |Replaced(str, s1, s2, i)| && n <= total
      invariant ret[..n] == Replaced(str, s1, s2, i)
    {
      ReplacedStep(str, s1, s2, i);
      n := PutPiece(ret, n, str, s1, s2, i);
      i := i + 1;
    }
    r := ret[..n];
    ret[n] := '\0';
  }

  /** A mismatch on the first character rules out an occurrence. */
  lemma NoOccurrence(str: string, i: nat, s1: string)
    requires i < |str| && s1 != [] && str[i] != s1[0]
    ensures !OccursAt(str, i, s1)
  {
  }

  /**
   * The documented example: the code returns "abcabb" unchanged where the
   * documentation promises "acab", because the "b" of each match is copied
   * again on the next step.
   */
  lemma ReplaceStringDocExample()
    ensures Replaced("abcabb", "ab", "a", 6) == "abcabb"
    ensures Replaced("abcabb", "ab", "a", 6) != "acab"
  {
    var str := "abcabb";
    assert str[0..2] == "ab" && str[3..5] == "ab";
    NoOccurrence(str, 1, "ab");
    NoOccurrence(str, 2, "ab");
    NoOccurrence(str, 4, "ab");
    NoOccurrence(str, 5, "ab");
    assert Replaced(str, "ab", "a", 3) == "abc";
  }

  /** Replacing a string by itself is not the identity in the code as written. */
  lemma ReplaceStringNotIdentity()
    ensures Replaced("ab", "ab", "ab", 2) == "abb"
  {
    assert "ab"[0..2] == "ab";
    NoOccurrence("ab", 1, "ab");
  }

  /**
   * Replacement as documented: each match of a non-empty `s1`, found left to
   * right, is replaced by `s2` and scanning resumes after the match.  An
   * empty `s1` changes nothing, and a replacement no longer than `s1` does
   * not lengthen the string.
   */
  function ReplaceAll(str: string, s1: string, s2: string): (r: string)
    ensures s1 == "" ==> r == str
    ensures |s2| <= |s1| ==> |r| <= |str|
    decreases |str|
  {
    if str == "" then ""
    else if s1 != "" && OccursAt(str, 0, s1) then s2 + ReplaceAll(str[|s1|..], s1, s2)
    else [str[0]] + ReplaceAll(str[1..], s1, s2)
  }

  /** The documented example holds of the corrected replacement. */
  lemma ReplaceAllDocExample()
    ensures ReplaceAll("abcabb", "ab", "a") == "acab"
  {
    assert "abcabb"[0..2] == "ab" && "abcabb"[2..] == "cabb";
    NoOccurrence("cabb", 0, "ab");
    assert "cabb"[1..] == "abb";
    assert "abb"[0..2] == "ab" && "abb"[2..] == "b";
    NoOccurrence("b", 0, "ab");
    assert "b"[1..] == "";
  }

  /** Replacing a string by itself changes nothing in the corrected replacement. */
  lemma {:induction false} ReplaceAllSelf(str: string, s1: string)
    ensures ReplaceAll(str, s1, s1) == str
    decreases |str|
  {
    if str != "" {
      if s1 != "" && OccursAt(str, 0, s1) {
        ReplaceAllSelf(str[|s1|..], s1);
        assert str == s1 + str[|s1|..];
      } else {
        ReplaceAllSelf(str[1..], s1);
        assert str == [str[0]] + str[1..];
      }
    }
  }

  /** Where `s1` does not occur, both the code and the corrected replacement return the input. */
  lemma ReplaceWithoutMatch(str: string, s1: string, s2: string)
    requires forall i :: 0 <= i < |str| ==> !OccursAt(str, i, s1)
    ensures ReplaceAll(str, s1, s2) == str
    ensures Replaced(str, s1, s2, |str|) == str
  {
    ReplacedWithoutMatch(str, s1, s2, |str|);
    assert str[..|str|] == str;
    ReplaceAllWithoutMatch(str, s1, s2);
  }

  /** Helper for `ReplaceWithoutMatch`: the corrected replacement copies a string without matches. */
  lemma {:induction false} ReplaceAllWithoutMatch(str: string, s1: string, s2: string)
    requires forall i :: 0 <= i < |str| ==> !OccursAt(str, i, s1)
    ensures ReplaceAll(str, s1, s2) == str
    decreases |str|
  {
    if str != "" {
      NoMatchInTail(str, s1);
      assert !OccursAt(str, 0, s1);
      ReplaceAllWithoutMatch(str[1..], s1, s2);
      assert str == [str[0]] + str[1..];
    }
  }

  /** A string without matches has none after its first character either. */
  lemma NoMatchInTail(str: string, s1: string)
    requires str != [] && forall i :: 0 <= i < |str| ==> !OccursAt(str, i, s1)
    ensures forall i :: 0 <= i < |str[1..]| ==> !OccursAt(str[1..], i, s1)
  {
    forall i | 0 <= i < |str[1..]|
      ensures !OccursAt(str[1..], i, s1)
    {
      assert !OccursAt(str, i + 1, s1);
      if i + |s1| <= |str[1..]| {
        assert str[1..][i..i + |s1|] == str[i + 1..i + 1 + |s1|];
      }
    }
  }

  /** Helper for `ReplaceWithoutMatch`: the code copies an unmatched prefix verbatim. */
  lemma {:induction false} ReplacedWithoutMatch(str: string, s1: string, s2: string, k: nat)
    requires k <= |str|
    requires forall i :: 0 <= i < |str| ==> !OccursAt(str, i, s1)
    ensures Replaced(str, s1, s2, k) == str[..k]
  {
    if k > 0 {
      ReplacedWithoutMatch(str, s1, s2, k - 1);
      assert str[..k] == str[..k - 1] + [str[k - 1]];
    }
  }

  // ---------------------------------------------------------------------------
  // guestfs_int_drive_name and guestfs_int_drive_index
  // ---------------------------------------------------------------------------

  /** A lower-case ASCII letter. */
  predicate IsLower(c: char)
  {
    'a' <= c <= 'z'
  }

  /** The letter for digit `d` in 0..25. */
  function Letter(d: nat): char
    requires d < 26
  {
    ('a' as int + d) as char
  }

  /** The drive name of a drive index: bijective base 26 over 'a'..'z'. */
  function DriveName(index: nat): (r: string)
    ensures r != [] && forall k :: 0 <= k < |r| ==> IsLower(r[k])
  {
    (if index >= 26 then DriveName(index / 26 - 1) else "") + [Letter(index % 26)]
  }

  /**
   * The value of a name of lower-case letters, 'a' standing for 1 and 'z'
   * for 26; only the empty name has value 0.
   */
  function NameValue(name: string): (v: nat)
    requires forall k :: 0 <= k < |name| ==> IsLower(name[k])
    ensures v == 0 <==> name == ""
  {
    if name == "" then 0
    else
      var last := name[|name| - 1];
      assert IsLower(last);
      26 * NameValue(name[..|name| - 1]) + (last as int - 'a' as int + 1)
  }

  /**
   * What `guestfs_int_drive_index` returns: -1 on any character outside
   * 'a'..'z' and on the empty name, otherwise an index.
   */
  function DriveIndexOf(name: string): (r: int)
    ensures r >= -1
    ensures r >= 0 <==> name != "" && forall k :: 0 <= k < |name| ==> IsLower(name[k])
  {
    if forall k :: 0 <= k < |name| ==> IsLower(name[k]) then NameValue(name) - 1 else -1
  }

  /**
   * `guestfs_int_drive_name`: writes the name of `index` at `ret[at..]`
   * followed by a NUL and returns the offset of that NUL.
   */
  method DriveNameInto(index: nat, ret: array<char>, at: nat) returns (end: nat)
    requires at + |DriveName(index)| < ret.Length
    modifies ret
    ensures end == at + |DriveName(index)|
    ensures ret[at..end] == DriveName(index) && ret[end] == '\0'
    ensures ret[..at] == old(ret[..at]) && ret[end + 1..] == old(ret[end + 1..])
    decreases index
  {
    var p := at;
    if index >= 26 {
      p := DriveNameInto(index / 26 - 1, ret, at);
    }
    ret[p] := Letter(index % 26);
    end := p + 1;
    ret[end] := '\0';
    assert ret[at..end] == ret[at..p] + [ret[p]];
  }

  /** `guestfs_int_drive_index`: the index a drive name stands for. */
  method DriveIndex(name: string) returns (r: int)
    ensures r == DriveIndexOf(name)
  {
    var acc := 0;
    var i := 0;
    while i < |name|
      invariant i <= |name|
      invariant forall k :: 0 <= k < i ==> IsLower(name[k])
      invariant acc == NameValue(name[..i])
    {
      if 'a' <= name[i] <= 'z' {
        assert name[..i + 1][..i] == name[..i];
        acc := 26 * acc + (name[i] as int - 'a' as int + 1);
      } else {
        return -1;
      }
      i := i + 1;
    }
    assert name[..i] == name;
    r := acc - 1;
  }

  /** Naming an index and reading the name back gives the index. */
  lemma {:induction false} DriveIndexOfDriveName(index: nat)
    ensures DriveIndexOf(DriveName(index)) == index
    ensures NameValue(DriveName(index)) == index + 1
    decreases index
  {
    var name := DriveName(index);
    if index >= 26 {
      var q := index / 26 - 1;
      DriveIndexOfDriveName(q);
      assert name[..|name| - 1] == DriveName(q);
      assert index == 26 * (q + 1) + index % 26;
    } else {
      assert name == [Letter(index)] && name[..0] == "";
      assert NameValue(name) == index + 1;
    }
  }

  /** Division by 26 recovers the quotient and the digit. */
  lemma DivMod26(v: nat, d: nat)
    requires d < 26
    ensures (26 * v + d) / 26 == v && (26 * v + d) % 26 == d
  {
  }

  /** Every non-empty name of lower-case letters is the name of exactly one index. */
  lemma {:induction false} DriveNameOfDriveIndex(name: string)
    requires name != [] && forall k :: 0 <= k < |name| ==> IsLower(name[k])
    ensures DriveIndexOf(name) >= 0
    ensures DriveName(DriveIndexOf(name)) == name
    decreases |name|
  {
    var prefix := name[..|name| - 1];
    var last := name[|name| - 1];
    assert IsLower(last);
    var d: nat := last as int - 'a' as int;
    var v := NameValue(prefix);
    var index: nat := 26 * v + d;
    assert NameValue(name) == index + 1;
    assert DriveIndexOf(name) == index;
    assert Letter(d) == last;
    DivMod26(v, d);
    assert name == prefix + [last];
    if prefix == [] {
      assert DriveName(index) == [Letter(d)];
    } else {
      DriveNameOfDriveIndex(prefix);
      assert DriveIndexOf(prefix) == v - 1;
      assert DriveName(index) == DriveName(v - 1) + [Letter(d)];
    }
  }

  /** The examples of the function's documentation and the first two-letter names. */
  lemma DriveNameExamples()
    ensures DriveName(0) == "a" && DriveName(25) == "z"
    ensures DriveName(26) == "aa" && DriveName(27) == "ab"
    ensures DriveIndexOf("ab") == 27 && DriveIndexOf("") == -1 && DriveIndexOf("a1") == -1
  {
    assert DriveName(1) == "b";
    assert "ab"[..1] == "a";
    assert "a"[..0] == "";
    assert !IsLower("a1"[1]);
  }

  // ---------------------------------------------------------------------------
  // guestfs_int_is_true
  // ---------------------------------------------------------------------------

  /** ASCII lower-casing, as `strcasecmp` compares in the C locale. */
  function LowerAscii(c: char): char
  {
    if 'A' <= c <= 'Z' then (c as int + 32) as char else c
  }

  /** The string with every ASCII letter lower-cased. */
  function Lower(s: string): (r: string)
    ensures |r| == |s| && forall k :: 0 <= k < |s| ==> r[k] == LowerAscii(s[k])
  {
    seq(|s|, k requires 0 <= k < |s| => LowerAscii(s[k]))
  }

  /** `strcasecmp (s, t) == 0`. */
  predicate CaseEq(s: string, t: string)
  {
    |s| == |t| && forall k :: 0 <= k < |s| ==> LowerAscii(s[k]) == LowerAscii(t[k])
  }

  /** `guestfs_int_is_true`: 1 for a true word, 0 for a false word, -1 otherwise. */
  function IsTrue(str: string): (r: int)
    ensures -1 <= r <= 1
  {
    if str == "1" || CaseEq(str, "true") || CaseEq(str, "t") || CaseEq(str, "yes")
       || CaseEq(str, "y") || CaseEq(str, "on") then 1
    else if str == "0" || CaseEq(str, "false") || CaseEq(str, "f") || CaseEq(str, "no")
       || CaseEq(str, "n") || CaseEq(str, "off") then 0
    else -1
  }

  /** The words accepted as true, in lower case. */
  const TrueWords: set<string> := {"true", "t", "yes", "y", "on"}

  /** The words accepted as false, in lower case. */
  const FalseWords: set<string> := {"false", "f", "no", "n", "off"}

  /** Comparing case-insensitively with a lower-case word is comparing the lower-cased string. */
  lemma CaseEqLower(s: string, w: string)
    requires Lower(w) == w
    ensures CaseEq(s, w) <==> Lower(s) == w
  {
    if Lower(s) == w {
      forall k | 0 <= k < |s|
        ensures LowerAscii(s[k]) == LowerAscii(w[k])
      {
        assert Lower(w)[k] == w[k];
      }
    }
  }

  /** `IsTrue` decides by the lower-cased string, and its two word sets cannot overlap. */
  lemma IsTrueSpec(str: string)
    ensures IsTrue(str) == 1 <==> str == "1" || Lower(str) in TrueWords
    ensures IsTrue(str) == 0 <==> str == "0" || Lower(str) in FalseWords
    ensures IsTrue(str) == -1 <==> !(str == "1" || Lower(str) in TrueWords || str == "0" || Lower(str) in FalseWords)
  {
    forall w | w in TrueWords + FalseWords
      ensures CaseEq(str, w) <==> Lower(str) == w
    {
      assert Lower(w) == w;
      CaseEqLower(str, w);
    }
    assert TrueWords !! FalseWords;
  }

  /** Case does not matter for the true words. */
  lemma IsTrueExamples()
    ensures IsTrue("YES") == 1 && IsTrue("On") == 1 && IsTrue("1") == 1
  {
    IsTrueSpec("YES");
    assert Lower("YES") == "yes";
    IsTrueSpec("On");
    assert Lower("On") == "on";
  }

  /** Case does not matter for the false words either. */
  lemma IsFalseExamples()
    ensures IsTrue("Off") == 0 && IsTrue("N") == 0 && IsTrue("0") == 0
  {
    IsTrueSpec("Off");
    assert Lower("Off") == "off";
    IsTrueSpec("N");
    assert Lower("N") == "n";
    IsTrueSpec("0");
    assert Lower("0") == "0";
  }

  /** Anything else, including the empty string, is neither. */
  lemma NeitherExamples()
    ensures IsTrue("2") == -1 && IsTrue("") == -1 && IsTrue("yess") == -1
  {
    IsTrueSpec("2");
    assert Lower("2") == "2";
    IsTrueSpec("");
    assert Lower("") == "";
    IsTrueSpec("yess");
    assert Lower("yess") == "yess";
  }

  // ---------------------------------------------------------------------------
  // guestfs_int_string_is_valid
  // ---------------------------------------------------------------------------

  /** `c_isalpha`: a 7-bit ASCII letter. */
  predicate IsAlpha(c: char)
  {
    'a' <= c <= 'z' || 'A' <= c <= 'Z'
  }

  /** `c_isdigit`: a 7-bit ASCII digit. */
  predicate IsDigit(c: char)
  {
    '0' <= c <= '9'
  }

  /** A character permitted by the flags or the `extra` set. */
  predicate ValidChar(c: char, alpha: bool, digit: bool, extra: Option<string>)
  {
    (alpha && IsAlpha(c)) || (digit && IsDigit(c)) || (extra.Some? && c in extra.value)
  }

  /** The length bounds, where a bound of 0 is not checked. */
  predicate LengthOk(len: nat, minLength: nat, maxLength: nat)
  {
    (minLength == 0 || len >= minLength) && (maxLength == 0 || len <= maxLength)
  }

  /**
   * `guestfs_int_string_is_valid`; `alpha` and `digit` stand for the
   * `VALID_FLAG_ALPHA` and `VALID_FLAG_DIGIT` bits of `flags`.
   */
  method StringIsValid(str: string, minLength: nat, maxLength: nat, alpha: bool, digit: bool,
                       extra: Option<string>) returns (ok: bool)
    ensures ok <==> LengthOk(|str|, minLength, maxLength)
                    && forall k :: 0 <= k < |str| ==> ValidChar(str[k], alpha, digit, extra)
  {
    var len := |str|;
    if (minLength > 0 && len < minLength) || (maxLength > 0 && len > maxLength) {
      return false;
    }
    var i := 0;
    while i < len
      invariant i <= len
      invariant forall k :: 0 <= k < i ==> ValidChar(str[k], alpha, digit, extra)
    {
      var validChar :=
        (alpha && IsAlpha(str[i])) || (digit && IsDigit(str[i])) || (extra.Some? && str[i] in extra.value);
      if !validChar {
        return false;
      }
      i := i + 1;
    }
    return true;
  }

  // ---------------------------------------------------------------------------
  // guestfs_int_shell_unquote
  // ---------------------------------------------------------------------------

  /** The characters a backslash escapes inside double quotes. */
  predicate Escapable(c: char)
  {
    c == '$' || c == '`' || c == '"' || c == '\\' || c == '\n'
  }

  /** The inside of a double-quoted string with its escaping backslashes dropped. */
  function Unescape(s: string): (r: string)
    ensures |r| <= |s|
  {
    if s == "" then ""
    else if |s| >= 2 && s[0] == '\\' && Escapable(s[1]) then [s[1]] + Unescape(s[2..])
    else [s[0]] + Unescape(s[1..])
  }

  /** A single-quoted string of at least two characters. */
  predicate SingleQuoted(str: string)
  {
    |str| >= 2 && str[0] == '\'' && str[|str| - 1] == '\''
  }

  /** A double-quoted string of at least two characters. */
  predicate DoubleQuoted(str: string)
  {
    |str| >= 2 && str[0] == '"' && str[|str| - 1] == '"'
  }

  /** What `guestfs_int_shell_unquote` returns. */
  function Unquote(str: string): (r: string)
    ensures |r| <= |str|
  {
    if SingleQuoted(str) then str[1..|str| - 1]
    else if DoubleQuoted(str) then Unescape(str[1..|str| - 1])
    else str
  }

  /** One step of the unescaping loop at offset `i` of the double-quoted `str`. */
  lemma UnescapeStep(str: string, i: nat)
    requires 1 <= i < |str| - 1
    ensures i < |str| - 2 && str[i] == '\\' && Escapable(str[i + 1]) ==>
              Unescape(str[i..|str| - 1]) == [str[i + 1]] + Unescape(str[i + 2..|str| - 1])
    ensures !(i < |str| - 2 && str[i] == '\\' && Escapable(str[i + 1])) ==>
              Unescape(str[i..|str| - 1]) == [str[i]] + Unescape(str[i + 1..|str| - 1])
  {
    var s := str[i..|str| - 1];
    assert s[0] == str[i];
    assert s[1..] == str[i + 1..|str| - 1];
    if i < |str| - 2 {
      assert s[1] == str[i + 1];
      assert s[2..] == str[i + 2..|str| - 1];
    }
  }

  /** The unescaping loop's invariant survives one step, whichever branch the step takes. */
  lemma UnescapeAdvance(str: string, i: nat, k: nat, done: string)
    requires 1 <= i < |str| - 1
    requires k == if i < |str| - 2 && str[i] == '\\' && Escapable(str[i + 1]) then i + 1 else i
    requires done + Unescape(str[i..|str| - 1]) == Unescape(str[1..|str| - 1])
    ensures (done + [str[k]]) + Unescape(str[k + 1..|str| - 1]) == Unescape(str[1..|str| - 1])
  {
    UnescapeStep(str, i);
  }

  /** A one-character store such as `*p++ = c`: writes `c` at offset `p` and nothing else. */
  method PutChar(buf: array<char>, p: nat, c: char)
    requires p < buf.Length
    modifies buf
    ensures buf[..p + 1] == old(buf[..p]) + [c]
    ensures buf[p + 1..] == old(buf[p + 1..])
  {
    buf[p] := c;
    assert buf[..p + 1] == old(buf[..p]) + [c];
  }

  /**
   * The double-quoting branch of `guestfs_int_shell_unquote`: the `i`/`j`
   * loop copies the inside of the quotes into a buffer of `len + 1`
   * characters, skipping each backslash that escapes the next character.
   */
  method UnquoteDouble(str: string) returns (r: string)
    requires DoubleQuoted(str)
    ensures r == Unescape(str[1..|str| - 1])
  {
    var len := |str|;
    var ret := new char[len + 1];
    var i, j := 1, 0;
    ghost var done := "";
    while i < len - 1
      invariant 1 <= i <= |str| - 1 && j < i && j == |done|
      invariant ret[..j] == done
      invariant done + Unescape(str[i..|str| - 1]) == Unescape(str[1..|str| - 1])
    {
      ghost var i0 := i;
      if i < len - 2 && str[i] == '\\' && Escapable(str[i + 1]) {
        i := i + 1;
      }
      UnescapeAdvance(str, i0, i, done);
      PutChar(ret, j, str[i]);
      done := done + [str[i]];
      i, j := i + 1, j + 1;
    }
    assert str[i..|str| - 1] == "";
    r := ret[..j];
    ret[j] := '\0';
  }


  /** `guestfs_int_shell_unquote`: strips single quotes, unescapes double quotes, else copies. */
  method ShellUnquote(str: string) returns (r: string)
    ensures r == Unquote(str)
  {
    var len := |str|;
    if len >= 2 {
      if str[0] == '\'' && str[len - 1] == '\'' {
        return str[1..len - 1];
      } else if str[0] == '"' && str[len - 1] == '"' {
        r := UnquoteDouble(str);
        return;
      }
    }
    return str;
  }

  /** Backslash-escapes every character that needs it inside double quotes. */
  function Escape(s: string): string
  {
    if s == "" then ""
    else if Escapable(s[0]) then ['\\', s[0]] + Escape(s[1..])
    else [s[0]] + Escape(s[1..])
  }

  /** Unescaping undoes escaping. */
  lemma {:induction false} UnescapeEscape(s: string)
    ensures Unescape(Escape(s)) == s
  {
    if s != "" {
      UnescapeEscape(s[1..]);
      var e := Escape(s);
      if Escapable(s[0]) {
        assert e[2..] == Escape(s[1..]);
      } else {
        assert e[1..] == Escape(s[1..]);
      }
    }
  }

  /** Quoting a string either way and unquoting it gives the string back. */
  lemma UnquoteRoundTrip(s: string)
    ensures '\'' !in s ==> Unquote("'" + s + "'") == s
    ensures Unquote("\"" + Escape(s) + "\"") == s
  {
    var d := "\"" + Escape(s) + "\"";
    assert d[1..|d| - 1] == Escape(s);
    UnescapeEscape(s);
    var q := "'" + s + "'";
    assert q[1..|q| - 1] == s;
  }

  /** A string not wrapped in matching quotes comes back unchanged. */
  lemma UnquoteUnquoted(str: string)
    requires !SingleQuoted(str) && !DoubleQuoted(str)
    ensures Unquote(str) == str
  {
  }

  /** A backslash right before the closing quote is kept; one before `"` inside is dropped. */
  lemma UnquoteExamples()
    ensures Unquote("'a\"b'") == "a\"b"
    ensures Unquote("\"a\\\"") == "a\\"
    ensures Unquote("\"\\$x\"") == "$x"
    ensures Unquote("\"\\a\"") == "\\a"
    ensures Unquote("x") == "x"
  {
    assert "\"a\\\""[1..3] == "a\\";
    assert Unescape("a\\") == ['a'] + Unescape("\\");
    assert "\"\\$x\""[1..4] == "\\$x";
    assert Unescape("\\$x") == ['$'] + Unescape("x");
    assert "\"\\a\""[1..3] == "\\a";
    assert Unescape("\\a") == ['\\'] + Unescape("a");
  }

  // ---------------------------------------------------------------------------
  // guestfs_int_is_reg and the other st_mode predicates
  // ---------------------------------------------------------------------------

  /** The file-type bits of an `st_mode` (octal 0170000). */
  const S_IFMT: bv64 := 0xF000

  /** Type bits octal 0100000: the mode of a regular file. */
  function IsReg(mode: bv64): (b: bool)
    ensures b <==> FileTypeOf(mode) == Regular
  {
    mode & S_IFMT == 0x8000
  }
  /** Type bits octal 0040000: the mode of a directory. */
  function IsDir(mode: bv64): (b: bool)
    ensures b <==> FileTypeOf(mode) == Directory
  {
    mode & S_IFMT == 0x4000
  }
  /** Type bits octal 0020000: the mode of a character device. */
  function IsChr(mode: bv64): (b: bool)
    ensures b <==> FileTypeOf(mode) == CharDevice
  {
    mode & S_IFMT == 0x2000
  }
  /** Type bits octal 0060000: the mode of a block device. */
  function IsBlk(mode: bv64): (b: bool)
    ensures b <==> FileTypeOf(mode) == BlockDevice
  {
    mode & S_IFMT == 0x6000
  }
  /** Type bits octal 0010000: the mode of a FIFO. */
  function IsFifo(mode: bv64): (b: bool)
    ensures b <==> FileTypeOf(mode) == Fifo
  {
    mode & S_IFMT == 0x1000
  }
  /** Type bits octal 0120000: the mode of a symbolic link. */
  function IsLnk(mode: bv64): (b: bool)
    ensures b <==> FileTypeOf(mode) == Symlink
  {
    mode & S_IFMT == 0xA000
  }
  /** Type bits octal 0140000: the mode of a socket. */
  function IsSock(mode: bv64): (b: bool)
    ensures b <==> FileTypeOf(mode) == Socket
  {
    mode & S_IFMT == 0xC000
  }

  /** The file type an `st_mode` encodes, in the Linux ABI. */
  datatype FileType = Regular | Directory | CharDevice | BlockDevice | Fifo | Symlink | Socket | Unknown

  /** Classifies a mode by its file-type bits alone. */
  function FileTypeOf(mode: bv64): (t: FileType)
    ensures t == Regular ==> mode & S_IFMT == 0x8000
    ensures t == Unknown ==> mode & S_IFMT !in {0x8000, 0x4000, 0x2000, 0x6000, 0x1000, 0xA000, 0xC000}
  {
    var bits := mode & S_IFMT;
    if bits == 0x8000 then Regular
    else if bits == 0x4000 then Directory
    else if bits == 0x2000 then CharDevice
    else if bits == 0x6000 then BlockDevice
    else if bits == 0x1000 then Fifo
    else if bits == 0xA000 then Symlink
    else if bits == 0xC000 then Socket
    else Unknown
  }

  /** At most one of the seven predicates holds, and none holds for a mode of unknown type. */
  lemma ModePredicatesClassify(mode: bv64)
    ensures (if IsReg(mode) then 1 else 0) + (if IsDir(mode) then 1 else 0) + (if IsChr(mode) then 1 else 0)
            + (if IsBlk(mode) then 1 else 0) + (if IsFifo(mode) then 1 else 0) + (if IsLnk(mode) then 1 else 0)
            + (if IsSock(mode) then 1 else 0) <= 1
    ensures FileTypeOf(mode) == Unknown <==>
              !(IsReg(mode) || IsDir(mode) || IsChr(mode) || IsBlk(mode) || IsFifo(mode) || IsLnk(mode) || IsSock(mode))
  {
  }

  /** Permission bits do not affect the file type. */
  lemma ModeIgnoresPermissions(mode: bv64, perms: bv64)
    requires perms & S_IFMT == 0
    ensures FileTypeOf(mode | perms) == FileTypeOf(mode)
  {
    assert (mode | perms) & S_IFMT == mode & S_IFMT;
  }

  // ---------------------------------------------------------------------------
  // guestfs_int_full_path
  // ---------------------------------------------------------------------------

  /** `dir` without one trailing '/', if it has one. */
  function DropTrailingSlash(dir: string): (r: string)
    ensures |dir| > 0 && dir[|dir| - 1] == '/' ==> dir == r + "/"
    ensures !(|dir| > 0 && dir[|dir| - 1] == '/') ==> r == dir
  {
    if |dir| > 0 && dir[|dir| - 1] == '/' then dir[..|dir| - 1] else dir
  }

  /** `guestfs_int_full_path`: `dir` and an optional `name` joined by exactly one '/'. */
  function FullPath(dir: string, name: Option<string>): (r: string)
    ensures name.Some? ==> r == DropTrailingSlash(dir) + "/" + name.value
    ensures name.None? ==> r == if dir == "/" then "/" else DropTrailingSlash(dir)
  {
    var len := if |dir| > 0 && dir[|dir| - 1] == '/' then |dir| - 1 else |dir|;
    if dir == "/" then "/" + (if name.Some? then name.value else "")
    else if name.Some? then dir[..len] + "/" + name.value
    else dir[..len]
  }

  /** A trailing '/' on `dir` makes no difference to the joined path. */
  lemma FullPathTrailingSlash(dir: string, name: string)
    requires dir == [] || dir[|dir| - 1] != '/'
    ensures FullPath(dir + "/", Some(name)) == FullPath(dir, Some(name)) == dir + "/" + name
  {
    assert (dir + "/")[..|dir|] == dir;
  }

  /** The root directory and names under it. */
  lemma FullPathExamples()
    ensures FullPath("/", Some("etc")) == "/etc"
    ensures FullPath("/", None) == "/"
    ensures FullPath("/usr/", Some("bin")) == "/usr/bin"
    ensures FullPath("/usr//", None) == "/usr/"
  {
    assert "/usr/"[..4] == "/usr";
    assert "/usr//"[..5] == "/usr/";
  }
}
