# libguestfs common utilities and LUKS key handling, in Dafny

This project models the string and key-handling core shared by the
libguestfs tools:

- `utils/utils.c`:
  - substring replacement (`guestfs_int_replace_string`)
  - drive names and indexes (`guestfs_int_drive_name`, `guestfs_int_drive_index`)
  - boolean words (`guestfs_int_is_true`)
  - string validation (`guestfs_int_string_is_valid`)
  - shell unquoting (`guestfs_int_shell_unquote`)
  - the seven `st_mode` predicates
  - path joining (`guestfs_int_full_path`)
- `utils/stringlists-utils.c`: NULL-terminated string vectors (count, copy,
  concat, join, split).
- `utils/environ.c`: copying an environment vector with (key, value) updates
  (`guestfs_int_copy_environ`).
- `options/keys.c`: the key store (`key_store_add_from_selector`,
  `key_store_import_key`, `key_store_requires_network`, `get_keys`).
- `options/decrypt.c`: LUKS map names (`make_mapname`) and the choice
  between a `make_mapname` name and `luks-UUID` in `decrypt_mountables`.

Representation:

- A C string is a Dafny `string` (no NUL inside).
- A `char **` vector is an `array<Option<string>>`. `None` is the NULL
  terminator, and `StringLists.Vector` gives the strings before it.
- A caller's output buffer is an `array<char>`.
- The key store is a class whose `keys` field the import method extends.
- Failure exits (`error (EXIT_FAILURE, …)`) are `Failure` results.

The code that fills buffers is written as methods with the C loops. Each
method is proved against a specification function, for example:

- `ReplaceString` against `Replaced`
- `DriveNameInto` and `DriveIndex` against `DriveName` and `DriveIndexOf`
- `ShellUnquote` against `Unquote`
- `JoinStrings` and `SplitString` against `Join` and `Split`
- `CopyEnviron` against `ApplyAll`
- `GetKeys` against `GetKeysOf`
- `MakeMapnameAsWritten` and `MakeMapname` against `MapnameAsWritten` and `Mapname`

The lemmas state what those functions guarantee, such as:

- round trips (split/join, quote/unquote, drive name/index, selector/key)
- exclusivity of the mode predicates
- lookups after environment updates
- the shape of map names

Two defects are listed under Findings. `guestfs_int_replace_string` does
not do what its comment promises. `make_mapname` can write its NUL one
byte past the `len` bytes it is given. Each is modelled twice: as
written, and corrected.

## Model

| member | source | states |
|---|---|---|
| Utils.ReplaceString | utils/utils.c:63-96 | the result is what one visit per position produces (`s2` where `s1` starts, else the character itself), and its length is the size the first pass counts |
| Utils.OccursAt | utils/utils.c:72 | an occurrence of `s1` at `i` fits in `str` and, for a non-empty `s1`, starts with the first character of `s1` |
| Utils.Piece | utils/utils.c:83-92 | an empty `s1` occurs everywhere, so every piece is `s2`; the first pass counts exactly the piece's length for its position |
| Utils.Replaced | utils/utils.c:82-93 | the output of the second pass is exactly as long as the size the first pass counts, so the `n+1` buffer holds the result and its NUL exactly |
| Utils.CountedSize | utils/utils.c:69-76 | at least one per position when `s2` is not empty, at most one per position when `s2` has at most one character |
| Utils.CountReplaced | utils/utils.c:69-76 | the first loop computes the counted size |
| Utils.CountedSizeMonotone | utils/utils.c:70-76 | the counted size never decreases along the string |
| Utils.ReplacedStep | utils/utils.c:83-92 | one position of the second pass appends its piece and stays within the counted size |
| Utils.PutPiece | utils/utils.c:84-91 | writes `s2` (the `strcpy`) or the character at offset `n`, keeps the bytes before `n` and after the piece, and returns the advanced offset |
| Utils.NoOccurrence | utils/utils.c:72 | a mismatch at the first character of `s1` means no occurrence at that offset |
| Utils.ReplacedWithoutMatch | utils/utils.c:83-92 | with no occurrence of `s1`, the second pass copies every prefix verbatim |
| Utils.ReplaceWithoutMatch | utils/utils.c:63-96 | with no occurrence of `s1`, both the code and the documented replacement return the input unchanged |
| Utils.ReplaceAllWithoutMatch | utils/utils.c:51-54 | the documented replacement returns a string without occurrences unchanged |
| Utils.ReplaceStringDocExample | utils/utils.c:56-60 | on the documented example the code returns `"abcabb"`, not the promised `"acab"` |
| Utils.ReplaceStringNotIdentity | utils/utils.c:63-96 | as written, replacing `"ab"` by itself in `"ab"` gives `"abb"` |
| Utils.ReplaceAll | utils/utils.c:51-61 | the documented replacement: an empty `s1` leaves the string unchanged, and a replacement no longer than `s1` never lengthens it |
| Utils.ReplaceAllDocExample | utils/utils.c:51-60 | the corrected replacement returns `"acab"` on the documented example |
| Utils.ReplaceAllSelf | utils/utils.c:51-54 | the corrected replacement of `s1` by `s1` is the identity |
| Utils.DriveName | utils/utils.c:178-197 | a drive name is non-empty and made of lower-case letters |
| Utils.DriveNameInto | utils/utils.c:189-197 | writes the drive name of `index` followed by a NUL, leaves the bytes before it alone, and returns the offset of the NUL |
| Utils.NameValue | utils/utils.c:210-216 | the base-26 value of a lower-case name is 0 exactly for the empty name |
| Utils.DriveIndexOf | utils/utils.c:207-220 | the result is at least -1, and it is an index exactly when the name is non-empty and all lower-case |
| Utils.DriveIndex | utils/utils.c:207-220 | returns -1 when some character is outside `a`..`z`, else the base-26 value of the name minus one |
| Utils.DriveIndexOfDriveName | utils/utils.c:199-220 | `drive_index (drive_name (i)) == i` for every index |
| Utils.DriveNameOfDriveIndex | utils/utils.c:199-220 | every non-empty lower-case name has an index, and it is the drive name of that index |
| Utils.DriveNameExamples | utils/utils.c:178-180 | index 27 is `"ab"` and back; 0, 25 and 26 are `"a"`, `"z"` and `"aa"`; the empty name and `"a1"` give -1 |
| Utils.IsTrue | utils/utils.c:226-245 | the result is one of -1, 0 and 1 |
| Utils.CaseEqLower | utils/utils.c:229-241 | a case-insensitive comparison with a lower-case word is a comparison of the lower-cased string |
| Utils.IsTrueSpec | utils/utils.c:226-245 | 1 exactly for `"1"` and the true words in any case; 0 exactly for `"0"` and the false words in any case; -1 exactly otherwise |
| Utils.IsTrueExamples | utils/utils.c:228-234 | `"YES"`, `"On"` and `"1"` are true |
| Utils.IsFalseExamples | utils/utils.c:236-242 | `"Off"`, `"N"` and `"0"` are false |
| Utils.NeitherExamples | utils/utils.c:244 | `"2"`, `""` and `"yess"` are neither |
| Utils.StringIsValid | utils/utils.c:279-301 | valid exactly when the non-zero length bounds hold and every character is allowed by the alpha flag, the digit flag or `extra` |
| Utils.Unescape | utils/utils.c:487 | unescaping never lengthens a string ("strings always get smaller") |
| Utils.Unquote | utils/utils.c:470-507 | the unquoted string is no longer than the input |
| Utils.UnescapeStep | utils/utils.c:491-498 | one turn of the `i`/`j` loop: an escaping backslash is skipped and the next character kept; any other character is kept |
| Utils.UnescapeAdvance | utils/utils.c:491-498 | the copy loop's invariant survives one turn on either branch |
| Utils.PutChar | utils/utils.c:497 | a one-character store writes `c` at offset `p` and changes no other byte |
| Utils.UnquoteDouble | utils/utils.c:483-503 | the double-quote branch returns the inside of the quotes with escaping backslashes dropped |
| Utils.ShellUnquote | utils/utils.c:470-507 | single quotes are stripped, double quotes are stripped and unescaped, anything else is copied |
| Utils.UnescapeEscape | utils/utils.c:483-498 | unescaping undoes backslash-escaping of `$`, `` ` ``, `"`, `\` and newline |
| Utils.UnquoteRoundTrip | utils/utils.c:470-507 | single-quoting a string with no `'`, or double-quoting an escaped string, then unquoting, gives the string back |
| Utils.UnquoteUnquoted | utils/utils.c:475-506 | a string not wrapped in matching quotes is returned unchanged |
| Utils.UnquoteExamples | utils/utils.c:491-498 | a backslash before the closing quote and one before a non-escapable character are kept; `\$` becomes `$` |
| Utils.FileTypeOf | utils/utils.c:509-583 | a mode classified as regular has type bits 0100000; an unknown one has none of the seven type values |
| Utils.IsReg | utils/utils.c:520-523 | holds exactly when `FileTypeOf` classifies the mode as a regular file |
| Utils.IsDir | utils/utils.c:530-533 | holds exactly when `FileTypeOf` classifies the mode as a directory |
| Utils.IsChr | utils/utils.c:540-543 | holds exactly when `FileTypeOf` classifies the mode as a character device |
| Utils.IsBlk | utils/utils.c:550-553 | holds exactly when `FileTypeOf` classifies the mode as a block device |
| Utils.IsFifo | utils/utils.c:560-563 | holds exactly when `FileTypeOf` classifies the mode as a FIFO |
| Utils.IsLnk | utils/utils.c:570-573 | holds exactly when `FileTypeOf` classifies the mode as a symbolic link |
| Utils.IsSock | utils/utils.c:580-583 | holds exactly when `FileTypeOf` classifies the mode as a socket |
| Utils.ModePredicatesClassify | utils/utils.c:519-583 | at most one of the seven predicates holds, and none holds for a mode of unknown type |
| Utils.ModeIgnoresPermissions | utils/utils.c:519-583 | bits outside 0170000 do not change the file type |
| Utils.DropTrailingSlash | utils/utils.c:601-603 | one trailing `/` is dropped when present, else `dir` is kept |
| Utils.FullPath | utils/utils.c:595-616 | `"/"` gives `"/"` + name; else `dir` without one trailing `/`, then `/` + name when there is a name |
| Utils.FullPathTrailingSlash | utils/utils.c:585-588 | a trailing `/` on `dir` gives the same path, `dir` + `/` + name |
| Utils.FullPathExamples | utils/utils.c:605-610 | `("/", "etc")` gives `"/etc"`, `("/", NULL)` gives `"/"`, `("/usr/", "bin")` gives `"/usr/bin"`, and only one trailing slash is dropped |
| StringLists.ToVector | utils/stringlists-utils.c:50-58 | a NULL-terminated vector holds each string at its own index and a NULL after the last |
| StringLists.Vector | utils/stringlists-utils.c:54-55 | the strings of a vector are its entries before the first NULL, which exists when the vector holds one |
| StringLists.CountStrings | utils/stringlists-utils.c:50-58 | returns the index of the first NULL: the number of strings |
| StringLists.CopyStringList | utils/stringlists-utils.c:61-83 | returns a fresh vector with the same strings and its own NULL |
| StringLists.Join | utils/stringlists-utils.c:93-125 | the join of a non-empty list begins with its first string |
| StringLists.JoinSnoc | utils/stringlists-utils.c:113-120 | appending a string to a non-empty list appends the separator and the string to the join |
| StringLists.JoinLength | utils/stringlists-utils.c:100-106 | the joined length is the sum of the lengths plus one separator between each pair |
| StringLists.JoinUpToIsJoin | utils/stringlists-utils.c:101-122 | the left-to-right build of the loops is the join of the prefix |
| StringLists.JoinUpToShorter | utils/stringlists-utils.c:113-122 | a prefix never joins to more than the whole list, so the filling pass stays in the buffer |
| StringLists.CopyInto | utils/stringlists-utils.c:115-120 | the `memcpy` writes `src` at offset `at` and keeps the bytes before and after |
| StringLists.PutJoined | utils/stringlists-utils.c:113-120 | one turn of the filling pass appends the separator (not before the first string) and then the string, and keeps the bytes after them |
| StringLists.JoinedSize | utils/stringlists-utils.c:100-106 | the sizing pass computes the length of the joined string |
| StringLists.FillJoined | utils/stringlists-utils.c:112-121 | the filling pass writes exactly the joined string and leaves the bytes after it alone |
| StringLists.JoinStrings | utils/stringlists-utils.c:93-125 | returns the strings separated by `sep`, of length total plus `|sep|` times (count - 1) |
| StringLists.ConcatStrings | utils/stringlists-utils.c:87-90 | returns the strings run together |
| StringLists.JoinEmptySeparator | utils/stringlists-utils.c:87-90 | joining with `""` is concatenation |
| StringLists.Cspn | utils/stringlists-utils.c:185 | the `strcspn` scan stays within the string |
| StringLists.CspnStops | utils/stringlists-utils.c:185 | the scanned run holds no separator, and the scan stops only at a separator or at the end |
| StringLists.Fields | utils/stringlists-utils.c:184-196 | a non-empty string has at least one field |
| StringLists.Split | utils/stringlists-utils.c:154-199 | there are no fields at all exactly for the empty string |
| StringLists.FieldsCount | utils/stringlists-utils.c:172-182 | a non-empty string splits into one field more than it has separators |
| StringLists.FieldsHaveNoSeparator | utils/stringlists-utils.c:184-196 | no field contains the separator |
| StringLists.JoinFields | utils/stringlists-utils.c:184-196 | joining the fields with the separator gives the string back |
| StringLists.FieldsOfJoin | utils/stringlists-utils.c:184-196 | splitting a separator-join of separator-free parts gives the parts back |
| StringLists.FieldsCons | utils/stringlists-utils.c:184-196 | a separator-free field followed by the separator splits off first |
| StringLists.SplitJoinRoundTrip | utils/stringlists-utils.c:154-199 | split then join with the same one-character separator is the identity, the empty string included |
| StringLists.SplitShape | utils/stringlists-utils.c:172-182 | `1 + (number of separators)` fields, none holding the separator |
| StringLists.SplitExamples | utils/stringlists-utils.c:131-151 | `""` gives `[]`, `"abc"` gives `["abc"]`, `":"` gives `["", ""]` |
| StringLists.CountSeparators | utils/stringlists-utils.c:172-174 | counts the occurrences of `sep` |
| StringLists.FieldEnd | utils/stringlists-utils.c:185-193 | the end of the field starting at `i` lies between `i` and the end of the string |
| StringLists.FieldEndIsCspn | utils/stringlists-utils.c:185 | that end is `i + strcspn (&str[i], reject)` |
| StringLists.FieldsFromIsFields | utils/stringlists-utils.c:184-196 | walking fields by offsets gives the fields of the suffix |
| StringLists.FieldsFromStep | utils/stringlists-utils.c:184-196 | one turn of the filling loop stores the next field, and the loop ends at the field that reaches the end |
| StringLists.StoreFields | utils/stringlists-utils.c:182-196 | the filling loop stores every field followed by the NULL |
| StringLists.SplitString | utils/stringlists-utils.c:154-199 | returns the NULL-terminated vector of the fields, with no fields for the empty string |
| Environ.Matches | utils/environ.c:74 | an entry matches a key exactly when it is that key, `=`, and a value |
| Environ.FirstMatch | utils/environ.c:72-80 | the found index is the first entry of the form `key=`, and none matches when there is none |
| Environ.Lookup | utils/environ.c:72-80 | a key has a value exactly when some entry matches it, and the value comes from such a `key=value` entry |
| Environ.SetVar | utils/environ.c:64-94 | one pair replaces the first `key=` entry or appends, and leaves other entries alone |
| Environ.ApplyAll | utils/environ.c:63-95 | each pair adds at most one entry |
| Environ.FindKey | utils/environ.c:72-80 | the search loop finds the first `key=` entry of the vector |
| Environ.Append | utils/environ.c:83-91 | the `realloc` gives the old strings, the new string and the NULL |
| Environ.ToVectorUpdate | utils/environ.c:76-77 | replacing an entry replaces that string of the vector |
| Environ.ToVectorSnoc | utils/environ.c:89-90 | appending moves the NULL one place on |
| Environ.ApplyAllStep | utils/environ.c:64-94 | applying one more pair |
| Environ.CopyEnviron | utils/environ.c:48-105 | returns a fresh vector holding the environment after every pair, applied in order |
| Environ.MatchesUnique | utils/environ.c:74 | an entry matches at most one key without `=` |
| Environ.SetVarReplacesFirst | utils/environ.c:71-79 | when some entry matches, the `key=value` string goes at the first match and every other entry, a later `key=` entry included, stays where it was |
| Environ.SetVarAppendsNew | utils/environ.c:82-91 | when no entry matches, the `key=value` string is appended after the last entry |
| Environ.DuplicateEntryKept | utils/environ.c:73-78 | setting `A` to `3` in `["A=1", "A=2"]` gives `["A=3", "A=2"]`: the search stops at the first match |
| Environ.EntryMatches | utils/environ.c:66-74 | the `key=value` string matches its key and holds its value |
| Environ.SetVarBinds | utils/environ.c:64-94 | after a pair, looking up its key gives its value |
| Environ.SetVarKeepsOthers | utils/environ.c:64-94 | a pair leaves the value of every other key as it was |
| Environ.ApplyAllLookup | utils/environ.c:48-105 | a key ends with the value of its last pair, or with its original value when no pair names it |
| Environ.LaterSettingWins | utils/environ.c:64-94 | a later pair for a key overrides an earlier one, even one that appended it |
| Environ.ApplyAllKeepsUnmatched | utils/environ.c:56-94 | an entry no key matches is kept, in place |
| Environ.SetVarBound | utils/environ.c:64-94 | a pair binds its key and leaves other keys bound or unbound |
| Environ.ApplyAllBound | utils/environ.c:48-105 | the bound keys are those of the environment and of the pairs |
| Environ.ApplyAllLength | utils/environ.c:82-91 | the final count is the original count plus one per distinct new key |
| Environ.PrefixKeyAppends | utils/environ.c:74 | key `A` does not replace `AB=1`, because `=` must follow the key |
| Keys.KeyStore.constructor | options/keys.c:268-272 | a new store is empty |
| Keys.ImportKey | options/keys.c:264-285 | appends the key to the store, creating the store when there is none |
| Keys.AddFromSelector | options/keys.c:213-261 | refuses a selector with the error the field checks give, leaving the store alone; otherwise imports the key the selector describes |
| Keys.ParseSelector | options/keys.c:219-258 | a selector accepted by the field checks describes a key whose selector is the input again |
| Keys.SelectorOfFields | options/keys.c:219-233 | the colon-separated fields of a selector hold no `:`, and two or three of them join back to the selector |
| Keys.SelectorFields | options/keys.c:231-256 | a key's selector is the colon-join of ID, TYPE and argument |
| Keys.ParseSelectorRoundTrip | options/keys.c:213-261 | every key whose ID and argument hold no `:` parses back from its selector |
| Keys.SplitAfterId | options/keys.c:219-227 | the ID is the part before the first `:` |
| Keys.FieldsOfFree | options/keys.c:219 | a string without `:` is one field |
| Keys.KeyStringWithColonRefused | options/keys.c:235-240 | a key string containing `:` makes too many fields and is refused |
| Keys.ClevisWithArgumentRefused | options/keys.c:253-256 | a Clevis selector with an argument is refused |
| Keys.FileWithoutNameRefused | options/keys.c:244-249 | a file selector without a name is refused |
| Keys.UnknownTypeRefused | options/keys.c:257-258 | any other TYPE is refused, with or without more fields |
| Keys.ParseSelectorMissing | options/keys.c:224-233 | the empty selector has no ID; a selector without `:` has no TYPE |
| Keys.RequiresNetwork | options/keys.c:288-300 | true exactly when there is a store and `HasClevis` holds of its keys |
| Keys.HasClevisAppend | options/keys.c:264-300 | after an import the network is needed exactly when it was before, or when the new key is Clevis |
| Keys.Selected | options/keys.c:156 | a key is used exactly when its ID is the device or the device's UUID, when there is one |
| Keys.StripNewline | options/keys.c:117-119 | exactly one trailing newline is removed when present |
| Keys.Yield | options/keys.c:159-180 | fails exactly for a key file that cannot be read, naming that file; otherwise the result is Clevis exactly for a Clevis key and exactly when it has no passphrase |
| Keys.YieldKey | options/keys.c:159-180 | the `switch` on the key type yields what `Yield` says |
| Keys.Scan | options/keys.c:152-181 | the scan yields no more matching keys than there are keys, so the `nmemb` array holds them; it can fail only on an unreadable key file |
| Keys.ScanStep | options/keys.c:152-181 | one key of the scan |
| Keys.ScanSkips | options/keys.c:156-157 | a key that is not selected adds nothing |
| Keys.ScanStops | options/keys.c:168-173 | a selected key whose file cannot be read ends the whole scan with that failure |
| Keys.ScanExtends | options/keys.c:159-180 | a selected key that yields a matching key appends it |
| Keys.StoreMatches | options/keys.c:150-181 | the loop fails as the scan does, or fills the start of the array with exactly the matching keys of the scan and leaves the rest of the array alone |
| Keys.GetKeysOf | options/keys.c:129-195 | a success holds at least one key; the missing-user-key failure happens only when the user gives no key |
| Keys.ScanFailureSticks | options/keys.c:108-115 | an unreadable key file ends `get_keys` with that failure |
| Keys.GetKeys | options/keys.c:129-195 | returns what `GetKeysOf` gives: the matching keys of the selected keys in store order, else the user's key, failing on an unreadable key file or no user key |
| Keys.SelectedKeysAppend | options/keys.c:152-156 | selection distributes over concatenation |
| Keys.ScanSelects | options/keys.c:152-184 | one matching key per selected key, in order, each the one that key yields |
| Keys.YieldsAppend | options/keys.c:152-181 | the pairing of selected keys with what they yield survives one more key |
| Keys.ScanClevisWithoutPassphrase | options/keys.c:205 | every matching key is Clevis exactly when it has no passphrase |
| Keys.GetKeysProperties | options/keys.c:132-195 | between 1 and `max(1, nr_keys)` keys, each Clevis exactly when it has no passphrase, the yields of the selected keys or else the user's key alone |
| Keys.YieldPassphrase | options/keys.c:160-176 | a string key yields its string; a file key yields its first line without the newline |
| Decrypt.TailStart | options/decrypt.c:58-59 | skipping `/dev/` stays within the device name |
| Decrypt.Alnums | options/decrypt.c:61-66 | the kept characters are letters and digits, no more than the input |
| Decrypt.Take | options/decrypt.c:61 | the first `n` characters, or all when there are fewer |
| Decrypt.AlnumsStep | options/decrypt.c:61-66 | one character more of the device |
| Decrypt.AlnumsPrefix | options/decrypt.c:61-66 | the letters and digits of a prefix are a prefix of all of them |
| Decrypt.AlnumsUpToIsAlnums | options/decrypt.c:61-66 | counting by offset gives the letters and digits of the prefix |
| Decrypt.CopiedIsTake | options/decrypt.c:61 | when the loop stops it has copied the first `n` letters and digits, or all of them |
| Decrypt.CopiedPrefix | options/decrypt.c:58-66 | the same, for the device with `/dev/` skipped |
| Decrypt.MapnameAsWritten | options/decrypt.c:48-69 | the bytes written are `"crypt"`, then letters and digits, then a NUL: at least 6 and at most `len + 1` of them |
| Decrypt.MakeMapnameAsWritten | options/decrypt.c:48-69 | aborts exactly when `len < 6`; otherwise writes `"crypt"`, up to `len - 5` letters and digits and a NUL, which can land at offset `len`, and leaves the bytes after the NUL alone |
| Decrypt.Mapname | options/decrypt.c:40-46 | the corrected name starts with `"crypt"` and, with its NUL, fits in `len` bytes |
| Decrypt.MapnameShape | options/decrypt.c:40-46 | the name starts with `"crypt"` and holds only letters and digits after it |
| Decrypt.MapnameLength | options/decrypt.c:48-69 | as written, `len + 1` bytes are written exactly when the device has at least `len - 5` letters and digits; the corrected name and its NUL always fit |
| Decrypt.MapnameAgrees | options/decrypt.c:48-69 | where the letters and digits fit, the code and the corrected name agree |
| Decrypt.MapnameOverflowExample | options/decrypt.c:61-68 | `"/dev/ab"` in 6 bytes writes `"crypta"` and its NUL at offset 6 |
| Decrypt.MakeMapname | options/decrypt.c:48-69 | with the bound the buffer needs, writes the name followed by a NUL inside the buffer, and leaves the bytes after the NUL alone |
| Decrypt.AlnumsAppend | options/decrypt.c:61-66 | letters and digits are kept piece by piece |
| Decrypt.AlnumsOfAlnum | options/decrypt.c:61-66 | a string of letters and digits is kept whole |
| Decrypt.AlnumsDropsSeparator | options/decrypt.c:43-45 | a non-alphanumeric separator between two words vanishes |
| Decrypt.MapnameDropsSeparator | options/decrypt.c:41-45 | VG and LV names joined by any separator map to the same name as the words run together (the accepted collision) |
| Decrypt.AlnumsAround | options/decrypt.c:61-66 | a non-alphanumeric character between two strings vanishes and the two sides are kept |
| Decrypt.MapnameLogicalVolumeExample | options/decrypt.c:42-45 | `"/dev/vg-ssd/lv-root7"` and `"/dev/vgssd/lvroot7"` both give `"cryptvgssdlvroot7"`: the documented collision |
| Decrypt.LogicalVolumeAlnums | options/decrypt.c:42-45 | both devices keep the letters and digits `"vgssdlvroot7"` |
| Decrypt.DashedDeviceAlnums | options/decrypt.c:42-45 | the dashed device keeps `"vgssdlvroot7"` |
| Decrypt.PlainDeviceAlnums | options/decrypt.c:42-45 | the device without dashes keeps `"vgssdlvroot7"` |
| Decrypt.DashedWords | options/decrypt.c:43-45 | `"vg-ssd"` keeps `"vgssd"` and `"lv-root7"` keeps `"lvroot7"` |
| Decrypt.LogicalVolumeTails | options/decrypt.c:58-59 | skipping `/dev/` leaves the volume-group and logical-volume words and their separators |
| Decrypt.AlnumsOfWords | options/decrypt.c:61-66 | each word of the example is kept whole |
| Decrypt.MapnameExample | options/decrypt.c:41-42 | `"/dev/vda2"` gives `"cryptvda2"` |
| Decrypt.Truncate | options/decrypt.c:107 | `snprintf` into 512 bytes keeps at most 511 characters, a prefix, or all when they fit |
| Decrypt.ChooseMapname | options/decrypt.c:105-108 | the chosen name always fits the 512-byte buffer |
| Decrypt.ChooseMapnameCases | options/decrypt.c:106-108 | partitions get the `make_mapname` name; logical volumes get `luks-` + UUID when they have a UUID, else the `make_mapname` name |

## Left out

- I/O is left out:
  - `read_key` (options/keys.c:42-99), the terminal prompt, is the parameter `userKey`.
  - The `fopen`/`getline` of `read_first_line_from_file` (options/keys.c:102-122) are the function parameter `readLine`. A file that cannot be opened or read gives `None`.
- `decrypt_mountables` and `inspect_do_decrypt` (options/decrypt.c:72-162) are left out apart from the map-name choice. Their other work is calls into the libguestfs appliance (`vfs_type`, `luks_uuid`, `cryptsetup_open`, `lvm_scan`, `lvs`), which are not part of this model.
- Allocation failures are not modelled: `malloc`, `realloc`, `strdup`, `asprintf` and `strndup` returning NULL, and the clean-up paths that follow.
- The `size_t overflow` check of `get_keys` (options/keys.c:143-144) is left out. Integers are unbounded here, so it cannot trigger.
- Utils.DriveIndex: does not model `ssize_t` overflow on very long names; the accumulator is unbounded.
- Utils.StringIsValid: `VALID_FLAG_ALPHA` and `VALID_FLAG_DIGIT` are two booleans, because their bit values are defined in a header that is not part of this model.
- Strings are assumed to hold no NUL character. A C string ends at its first NUL, and this is not stated as a precondition.
- Decrypt.ChooseMapname: a negative `snprintf` return is not modelled; it cannot happen with this format. The `make_mapname` branch uses the corrected name (Findings).
- Utils.ReplaceAll, the corrected replacement, treats an empty `s1` as never matching. The code as written, `Utils.Replaced`, emits `s2` at every position.
- `guestfs_int_exit_status_to_string`, `guestfs_int_random_string`, the `fadvise` hints, `guestfs_int_hexdump` and `guestfs_int_strerror` (utils/utils.c:102-176, 315-446, 622-671) are not part of this model. They are formatting, randomness and system calls.
- `guestfs_int_free_string_list`, `free_keys` and `free_key_store` only release memory, so they are not modelled. The invariant `free_keys` asserts (Clevis exactly when there is no passphrase) is proved as `Keys.ScanClevisWithoutPassphrase`.
- Utils.PutPiece: the `strcpy` of `s2` (utils/utils.c:85) also writes a NUL after `s2`. The next piece or the final NUL overwrites it, and the buffer has room for it, so it is not shown.
- Decrypt.MakeMapnameAsWritten: `strcpy` also writes a NUL after `"crypt"`. The loop or the final NUL overwrites it, so it is not shown.

## Findings

| source | as written | input that shows it | evidently intended | confidence | as-written member | corrected member |
|---|---|---|---|---|---|---|
| utils/utils.c:56-96 | after a match the scan advances by one character, so the rest of the match is visited again and copied | `replace_string ("abcabb", "ab", "a")` returns `"abcabb"` | the documented `"acab"`: scanning resumes after the match | high (not executed) | Utils.ReplaceStringDocExample | Utils.ReplaceAllDocExample |
| options/decrypt.c:56-68 | the loop copies while `len >= 1` after `"crypt"`, leaving no room for the NUL | device `"/dev/ab"` with `len == 6` writes `"crypta"` and a NUL at `mapname[6]`, one byte past the buffer (`Decrypt.MapnameOverflowExample`); latent: `make_mapname` is static and its only call (options/decrypt.c:108) passes 512 bytes, so an overrun needs a device with 507 or more letters and digits after `/dev/` | copy while `len > 1`, so that the name and its NUL fit in `len` bytes | high (not executed) | Decrypt.MakeMapnameAsWritten | Decrypt.MakeMapname |
