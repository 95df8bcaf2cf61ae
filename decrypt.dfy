/**
 * LUKS map names of options/decrypt.c: `make_mapname` turns a device name
 * into "crypt" followed by the device's letters and digits, and
 * `decrypt_mountables` chooses between that name and "luks-" + UUID.
 */
module Decrypt {
  import opened Wrappers
  import Utils

  /** `c_isalnum`: an ASCII letter or digit. */
  predicate IsAlnum(c: char)
  {
    Utils.IsAlpha(c) || Utils.IsDigit(c)
  }

  /** Where the device name starts once a leading "/dev/" is skipped. */
  function TailStart(device: string): (r: nat)
    ensures r <= |device|
  {
    if |device| >= 5 && device[..5] == "/dev/" then 5 else 0
  }

  /** The device name without a leading "/dev/". */
  function DeviceTail(device: string): string
  {
    device[TailStart(device)..]
  }

  /** The letters and digits of `s`, in order. */
  function Alnums(s: string): (r: string)
    ensures |r| <= |s|
    ensures forall k :: 0 <= k < |r| ==> IsAlnum(r[k])
  {
    if s == "" then ""
    else Alnums(s[..|s| - 1]) + (if IsAlnum(s[|s| - 1]) then [s[|s| - 1]] else "")
  }

  /** At most the first `n` characters of `s`. */
  function Take(s: string, n: nat): (r: string)
    ensures |r| == if |s| <= n then |s| else n
    ensures r == s[..|r|]
  {
    if |s| <= n then s else s[..n]
  }

  /**
   * The bytes `make_mapname` writes into a buffer of `len` bytes, as the
   * code is written: "crypt", up to `len - 5` letters and digits of the
   * device, and the terminating NUL.
   */
  function MapnameAsWritten(device: string, len: nat): (r: string)
    requires len >= 6
    ensures 6 <= |r| <= len + 1 && r[..5] == "crypt" && r[|r| - 1] == '\0'
  {
    "crypt" + Take(Alnums(DeviceTail(device)), len - 5) + "\0"
  }

  /**
   * The name `make_mapname` is meant to produce for a buffer of `len` bytes:
   * "crypt" and up to `len - 6` letters and digits, so that the name and its
   * NUL fit the buffer.
   */
  function Mapname(device: string, len: nat): (r: string)
    requires len >= 6
    ensures 5 <= |r| < len && r[..5] == "crypt"
  {
    "crypt" + Take(Alnums(DeviceTail(device)), len - 6)
  }

  /** One more character of the device. */
  lemma AlnumsStep(s: string, i: nat)
    requires i < |s|
    ensures Alnums(s[..i + 1]) == Alnums(s[..i]) + (if IsAlnum(s[i]) then [s[i]] else "")
  {
    assert s[..i + 1][..i] == s[..i];
  }

  /** The letters and digits of a prefix are a prefix of the letters and digits. */
  lemma {:induction false} AlnumsPrefix(s: string, i: nat)
    requires i <= |s|
    ensures |Alnums(s[..i])| <= |Alnums(s)|
    ensures Alnums(s[..i]) == Alnums(s)[..|Alnums(s[..i])|]
    decreases |s| - i
  {
    if i < |s| {
      AlnumsPrefix(s, i + 1);
      AlnumsStep(s, i);
    } else {
      assert s[..i] == s;
    }
  }

  /** The letters and digits among the first `j` characters of `s`, counted by offset. */
  ghost function AlnumsUpTo(s: string, j: nat): string
    requires j <= |s|
  {
    if j == 0 then "" else AlnumsUpTo(s, j - 1) + (if IsAlnum(s[j - 1]) then [s[j - 1]] else "")
  }

  /** Counting by offset gives the letters and digits of the prefix. */
  lemma {:induction false} AlnumsUpToIsAlnums(s: string, j: nat)
    requires j <= |s|
    ensures AlnumsUpTo(s, j) == Alnums(s[..j])
  {
    if j > 0 {
      AlnumsUpToIsAlnums(s, j - 1);
      AlnumsStep(s, j - 1);
    }
  }

  /**
   * When the copy loop stops, either at the end of the device or with `n`
   * characters copied, it has copied the first `n` letters and digits, or
   * all of them when there are fewer.
   */
  lemma CopiedIsTake(s: string, j: nat, n: nat)
    requires j <= |s| && |Alnums(s[..j])| <= n
    requires j == |s| || |Alnums(s[..j])| == n
    ensures Take(Alnums(s), n) == Alnums(s[..j])
  {
    AlnumsPrefix(s, j);
    if j == |s| {
      assert s[..j] == s;
    }
  }

  /** What the copy loop has copied when it stops is the part of the name after "crypt". */
  lemma CopiedPrefix(device: string, n: nat, i: nat, copied: string)
    requires TailStart(device) <= i <= |device|
    requires copied == AlnumsUpTo(DeviceTail(device), i - TailStart(device))
    requires |copied| <= n && (i == |device| || |copied| == n)
    ensures Take(Alnums(DeviceTail(device)), n) == copied
  {
    var tail := DeviceTail(device);
    var j := i - TailStart(device);
    AlnumsUpToIsAlnums(tail, j);
    CopiedIsTake(tail, j, n);
  }

  /**
   * `make_mapname` as written, on a buffer `buf` of which the first `len`
   * bytes are the caller's: aborts when `len < 6`, otherwise writes
   * "crypt", copies letters and digits while `len >= 1` after "crypt", and
   * returns the offset at which it wrote the NUL.  The buffer here has one
   * byte more than the caller's so that a write at offset `len` can be seen.
   */
  method MakeMapnameAsWritten(device: string, buf: array<char>, len: nat) returns (aborted: bool, end: nat)
    requires len < buf.Length
    modifies buf
    ensures aborted <==> len < 6
    ensures aborted ==> buf[..] == old(buf[..])
    ensures !aborted ==> end <= len && buf[..end + 1] == MapnameAsWritten(device, len)
    ensures !aborted ==> buf[end + 1..] == old(buf[end + 1..])
  {
    if len < 6 {
      return true, 0;
    }
    aborted := false;
    buf[0], buf[1], buf[2], buf[3], buf[4] := 'c', 'r', 'y', 'p', 't';
    var p, rem := 5, len - 5;
    var start := TailStart(device);
    ghost var tail := DeviceTail(device);
    ghost var copied: string := "";
    var i := start;
    while i < |device| && rem >= 1
      invariant start <= i <= |device|
      invariant p + rem == len && p == 5 + |copied| && rem >= 0
      invariant copied == AlnumsUpTo(tail, i - start)
      invariant buf[..p] == "crypt" + copied
      invariant buf[p..] == old(buf[p..])
      decreases |device| - i
    {
      var c := device[i];
      assert c == tail[i - start];
      if IsAlnum(c) {
        assert buf[p..][1..] == buf[p + 1..];
        Utils.PutChar(buf, p, c);
        copied := copied + [c];
        p, rem := p + 1, rem - 1;
      }
      i := i + 1;
    }
    CopiedPrefix(device, len - 5, i, copied);
    assert MapnameAsWritten(device, len) == "crypt" + copied + "\0";
    assert buf[p..][1..] == buf[p + 1..];
    Utils.PutChar(buf, p, '\0');
    end := p;
  }

  /** The name always begins with "crypt" and holds only letters and digits after it. */
  lemma MapnameShape(device: string, len: nat)
    requires len >= 6
    ensures Mapname(device, len)[..5] == "crypt"
    ensures forall k :: 5 <= k < |Mapname(device, len)| ==> IsAlnum(Mapname(device, len)[k])
    ensures MapnameAsWritten(device, len)[..5] == "crypt"
  {
    var t := Take(Alnums(DeviceTail(device)), len - 6);
    assert forall k :: 0 <= k < |t| ==> IsAlnum(t[k]) by {
      assert t == Alnums(DeviceTail(device))[..|t|];
    }
  }

  /**
   * As written the bytes fill the buffer and one more exactly when the
   * device has at least `len - 5` letters and digits; the intended name and
   * its NUL always fit.
   */
  lemma MapnameLength(device: string, len: nat)
    requires len >= 6
    ensures |MapnameAsWritten(device, len)| <= len + 1
    ensures |MapnameAsWritten(device, len)| == len + 1 <==> |Alnums(DeviceTail(device))| >= len - 5
    ensures |Mapname(device, len)| + 1 <= len
  {
  }

  /** Where the letters and digits fit, the code as written and the intended name agree. */
  lemma MapnameAgrees(device: string, len: nat)
    requires len >= 6 && |Alnums(DeviceTail(device))| < len - 5
    ensures MapnameAsWritten(device, len) == Mapname(device, len) + "\0"
  {
  }

  /** "/dev/ab" in a 6-byte buffer: the NUL lands at offset 6, past the buffer. */
  lemma MapnameOverflowExample()
    ensures |MapnameAsWritten("/dev/ab", 6)| == 7
    ensures MapnameAsWritten("/dev/ab", 6) == "crypta\0"
  {
    assert "/dev/ab"[..5] == "/dev/";
    assert DeviceTail("/dev/ab") == "ab";
    assert "ab"[..1] == "a";
    assert Alnums("ab") == "ab";
  }

  /**
   * `make_mapname` with the loop guard the buffer needs (`len > 1` after
   * "crypt"): the name and its NUL are written into `mapname`, which has
   * the caller's `len` bytes.
   */
  method MakeMapname(device: string, mapname: array<char>) returns (aborted: bool)
    modifies mapname
    ensures aborted <==> mapname.Length < 6
    ensures aborted ==> mapname[..] == old(mapname[..])
    ensures !aborted ==> var name := Mapname(device, mapname.Length);
                        |name| < mapname.Length && mapname[..|name| + 1] == name + "\0"
                        && mapname[|name| + 1..] == old(mapname[|name| + 1..])
  {
    var len := mapname.Length;
    if len < 6 {
      return true;
    }
    aborted := false;
    mapname[0], mapname[1], mapname[2], mapname[3], mapname[4] := 'c', 'r', 'y', 'p', 't';
    var p, rem := 5, len - 5;
    var start := TailStart(device);
    ghost var tail := DeviceTail(device);
    ghost var copied: string := "";
    var i := start;
    while i < |device| && rem > 1
      invariant start <= i <= |device|
      invariant p + rem == len && p == 5 + |copied| && rem >= 1
      invariant copied == AlnumsUpTo(tail, i - start)
      invariant mapname[..p] == "crypt" + copied
      invariant mapname[p..] == old(mapname[p..])
      decreases |device| - i
    {
      var c := device[i];
      assert c == tail[i - start];
      if IsAlnum(c) {
        assert mapname[p..][1..] == mapname[p + 1..];
        Utils.PutChar(mapname, p, c);
        copied := copied + [c];
        p, rem := p + 1, rem - 1;
      }
      i := i + 1;
    }
    CopiedPrefix(device, len - 6, i, copied);
    assert Mapname(device, len) == "crypt" + copied;
    assert mapname[p..][1..] == mapname[p + 1..];
    Utils.PutChar(mapname, p, '\0');
  }

  /** Letters and digits are kept per piece. */
  lemma {:induction false} AlnumsAppend(a: string, b: string)
    ensures Alnums(a + b) == Alnums(a) + Alnums(b)
    decreases |b|
  {
    if b != "" {
      var b' := b[..|b| - 1];
      assert (a + b)[..|a + b| - 1] == a + b';
      AlnumsAppend(a, b');
    } else {
      assert a + b == a;
    }
  }

  /** A string of letters and digits is kept whole. */
  lemma {:induction false} AlnumsOfAlnum(s: string)
    requires forall k :: 0 <= k < |s| ==> IsAlnum(s[k])
    ensures Alnums(s) == s
    decreases |s|
  {
    if s != "" {
      AlnumsOfAlnum(s[..|s| - 1]);
    }
  }

  /** A separator between two words of letters and digits vanishes. */
  lemma AlnumsDropsSeparator(vg: string, sep: char, lv: string)
    requires !IsAlnum(sep)
    requires forall k :: 0 <= k < |vg| ==> IsAlnum(vg[k])
    requires forall k :: 0 <= k < |lv| ==> IsAlnum(lv[k])
    ensures Alnums(vg + [sep] + lv) == vg + lv
  {
    AlnumsAppend(vg + [sep], lv);
    AlnumsAppend(vg, [sep]);
    assert Alnums([sep]) == "" by {
      assert [sep][..0] == "";
    }
    var head := Alnums(vg + [sep]);
    assert head == Alnums(vg) + "";
    assert head == Alnums(vg);
    AlnumsOfAlnum(vg);
    assert head == vg;
    AlnumsOfAlnum(lv);
    assert Alnums(vg + [sep] + lv) == head + Alnums(lv);
  }

  /**
   * Separators vanish: two volume-group and logical-volume words joined by
   * any separator give the same name as the words run together, which is
   * the collision the function's documentation accepts.
   */
  lemma MapnameDropsSeparator(vg: string, sep: char, lv: string, len: nat)
    requires len >= 6 && !IsAlnum(sep)
    requires forall k :: 0 <= k < |vg| ==> IsAlnum(vg[k])
    requires forall k :: 0 <= k < |lv| ==> IsAlnum(lv[k])
    ensures Mapname("/dev/" + vg + [sep] + lv, len) == Mapname("/dev/" + vg + lv, len)
    ensures |vg| + |lv| <= len - 6 ==> Mapname("/dev/" + vg + [sep] + lv, len) == "crypt" + vg + lv
  {
    var w1 := vg + [sep] + lv;
    var w2 := vg + lv;
    assert ("/dev/" + w1)[..5] == "/dev/";
    assert ("/dev/" + w2)[..5] == "/dev/";
    assert DeviceTail("/dev/" + w1) == w1;
    assert DeviceTail("/dev/" + w2) == w2;
    AlnumsDropsSeparator(vg, sep, lv);
    assert forall k :: 0 <= k < |w2| ==> IsAlnum(w2[k]);
    AlnumsOfAlnum(w2);
    assert "/dev/" + vg + [sep] + lv == "/dev/" + w1;
    assert "/dev/" + vg + lv == "/dev/" + w2;
  }

  /** The first example of the function's documentation. */
  lemma MapnameExample()
    ensures Mapname("/dev/vda2", 512) == "cryptvda2"
  {
    assert "/dev/vda2"[..5] == "/dev/" && "/dev/vda2"[5..] == "vda2";
    AlnumsOfAlnum("vda2");
  }

  /** A character that is not a letter or digit splits the kept characters in two. */
  lemma AlnumsAround(a: string, sep: char, b: string)
    requires !IsAlnum(sep)
    ensures Alnums(a + [sep] + b) == Alnums(a) + Alnums(b)
  {
    AlnumsAppend(a + [sep], b);
    AlnumsAppend(a, [sep]);
    assert Alnums([sep]) == "" by {
      assert [sep][..0] == "";
    }
  }

  /**
   * The second example of the function's documentation, and the collision
   * it accepts: the VG/LV separator and the dashes inside the names vanish.
   */
  lemma MapnameLogicalVolumeExample()
    ensures Mapname("/dev/vg-ssd/lv-root7", 512) == "cryptvgssdlvroot7"
    ensures Mapname("/dev/vgssd/lvroot7", 512) == "cryptvgssdlvroot7"
  {
    LogicalVolumeAlnums();
    assert "crypt" + "vgssdlvroot7" == "cryptvgssdlvroot7";
  }

  /** Both device names of the example keep the same letters and digits. */
  lemma LogicalVolumeAlnums()
    ensures Alnums(DeviceTail("/dev/vg-ssd/lv-root7")) == "vgssdlvroot7"
    ensures Alnums(DeviceTail("/dev/vgssd/lvroot7")) == "vgssdlvroot7"
  {
    DashedDeviceAlnums();
    PlainDeviceAlnums();
  }

  /** The device name with dashes. */
  lemma DashedDeviceAlnums()
    ensures Alnums(DeviceTail("/dev/vg-ssd/lv-root7")) == "vgssdlvroot7"
  {
    LogicalVolumeTails();
    DashedWords();
    AlnumsAround("vg" + ['-'] + "ssd", '/', "lv" + ['-'] + "root7");
  }

  /** The device name without dashes. */
  lemma PlainDeviceAlnums()
    ensures Alnums(DeviceTail("/dev/vgssd/lvroot7")) == "vgssdlvroot7"
  {
    LogicalVolumeTails();
    AlnumsOfWords();
    AlnumsAround("vgssd", '/', "lvroot7");
  }

  /** The dashes inside the VG and LV names of the example vanish. */
  lemma DashedWords()
    ensures Alnums("vg" + ['-'] + "ssd") == "vgssd" && Alnums("lv" + ['-'] + "root7") == "lvroot7"
  {
    AlnumsOfWords();
    AlnumsAround("vg", '-', "ssd");
    AlnumsAround("lv", '-', "root7");
  }

  /** The two device names of the example without "/dev/". */
  lemma LogicalVolumeTails()
    ensures DeviceTail("/dev/vg-ssd/lv-root7") == "vg" + ['-'] + "ssd" + ['/'] + ("lv" + ['-'] + "root7")
    ensures DeviceTail("/dev/vgssd/lvroot7") == "vgssd" + ['/'] + "lvroot7"
  {
    var d1, d2 := "/dev/vg-ssd/lv-root7", "/dev/vgssd/lvroot7";
    assert d1[..5] == "/dev/" && d2[..5] == "/dev/";
  }

  /** The words of the example are kept whole. */
  lemma AlnumsOfWords()
    ensures Alnums("vg") == "vg" && Alnums("ssd") == "ssd" && Alnums("lv") == "lv" && Alnums("root7") == "root7"
    ensures Alnums("vgssd") == "vgssd" && Alnums("lvroot7") == "lvroot7"
  {
    AlnumsOfAlnum("vg");
    AlnumsOfAlnum("ssd");
    AlnumsOfAlnum("lv");
    AlnumsOfAlnum("root7");
    AlnumsOfAlnum("vgssd");
    AlnumsOfAlnum("lvroot7");
  }

  // ---------------------------------------------------------------------------
  // The map-name choice of decrypt_mountables
  // ---------------------------------------------------------------------------

  /** The size of the `mapname` buffer in `decrypt_mountables`. */
  const MapnameSize: nat := 512

  /** `snprintf` into a buffer of `size` bytes keeps at most `size - 1` characters. */
  function Truncate(s: string, size: nat): (r: string)
    requires size >= 1
    ensures |r| < size && |r| <= |s| && r == s[..|r|]
    ensures |s| < size ==> r == s
  {
    if |s| < size then s else s[..size - 1]
  }

  /**
   * The name the decrypted device gets: "luks-" + UUID when names are
   * chosen by UUID and the device has one, else the `make_mapname` name.
   */
  function ChooseMapname(device: string, uuid: Option<string>, byUuid: bool): (r: string)
    ensures |r| < MapnameSize
  {
    if byUuid && uuid.Some? then Truncate("luks-" + uuid.value, MapnameSize)
    else Mapname(device, MapnameSize)
  }

  /** Partitions are named by device; logical volumes by UUID when they have one. */
  const PartitionsByUuid := false
  const LogicalVolumesByUuid := true

  /** The choice as the two calls of `inspect_do_decrypt` make it. */
  lemma ChooseMapnameCases(device: string, uuid: Option<string>)
    ensures ChooseMapname(device, uuid, PartitionsByUuid) == Mapname(device, MapnameSize)
    ensures uuid.None? ==> ChooseMapname(device, uuid, LogicalVolumesByUuid) == Mapname(device, MapnameSize)
    ensures uuid.Some? && |uuid.value| < MapnameSize - 5 ==>
              ChooseMapname(device, uuid, LogicalVolumesByUuid) == "luks-" + uuid.value
    ensures ChooseMapname(device, uuid, LogicalVolumesByUuid)[..5] in {"luks-", "crypt"}
  {
    MapnameShape(device, MapnameSize);
    if uuid.Some? {
      var s := "luks-" + uuid.value;
      assert Truncate(s, MapnameSize)[..5] == s[..5] == "luks-";
    }
  }
}
