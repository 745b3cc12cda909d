# VBoxManage `list`: command builder and output parser

This project models the `list` part of a small Python wrapper around
VirtualBox's `VBoxManage` command-line tool. It proves properties of that model in Dafny.

- **Command builder (`VBoxManageList`).** Each of the ten directives
  (`vms`, `runningvms`, `intnets`, `hostinfo`, `groups`, `systemproperties`,
  `bridgedifs`, `hostonlyifs`, `natnets`, `dhcpservers`) becomes an argument
  vector `VBoxManage list [-s] [-l] <directive>`. The private routine
  `__process` builds it by appending to a list. `ListBuilder.Process` is a
  method that performs the same conditional appends. It is proved equal to
  the function `ListBuilder.CommandLine`, and the shape of the vector is
  proved about that function.
- **Output parser (`VBoxManageListParser`).** It turns the tool's text
  output into dictionaries.
  - The key normaliser `__parse_key_value`.
  - The short VM listing (`"name" {id}` lines map each `id` to its `name`).
  - The long VM listing (blank-line separated blocks of `Key: value` lines
    become records keyed by their `uuid` field).
  - The host-information listing (two header lines, then `Key: value` lines).

Each parser is a method with the source's loops. It is proved equal to a
specification function of the form "fails when some line or block is
malformed, otherwise the dictionary built by assigning the items of the
lines in order". Where the Python code raises (`None.group`,
`KeyError 'uuid'`, a wrong argument count), the model returns `Malformed`.

The modules:

- `Results`: `Option` and `Result`.
- `PyText`: the Python string builtins the parser uses, on ASCII. These are
  `strip`, `lower`, `replace`, the character-class `re.sub`, `split`,
  `splitlines`, and greedy regex runs.
- `Dicts`: a dictionary filled by successive `d[k] = v`, where the last
  write wins.
- `ListBuilder`: the builder.
- `ListParser`: the parser.
- `ListExamples`: the repository's short-listing test cases, stated for all
  names, ids and gaps of the shape those cases use.

Two behaviours of the code are easy to miss. The model keeps both:

- A host-information body line must split on `": "` into exactly two parts.
  An empty body line fails, and so does a line with two `": "`
  separators.
- In the short listing a whitespace-only line is not skipped, so it fails.
  Only the empty line is skipped.

The docstrings of `parse_short_vms` and `parse_runningvms`
(`api/api_vbox/vboxmanage/_list.py:157-159` and `:201-203`) show the
result as `{name: id}`. The code at `:166` and the tests at
`api/api_vbox/tests/test_list.py:65-68` build `{id: name}`. The model
follows the code: the short listing maps each id to its name.

## Model

| member | source | states |
|---|---|---|
| ListBuilder.Token | api/api_vbox/vboxmanage/_list.py:41-129 | each directive method's literal is non-empty and never starts with `-`, so it cannot be read as a flag |
| ListBuilder.Named | api/api_vbox/vboxmanage/_list.py:41-129 | looking a directive up by its method name finds the directive with that token, or reports that no directive has it |
| ListBuilder.NamedToken | api/api_vbox/vboxmanage/_list.py:41-129 | a directive's own name leads back to that directive, so the ten names are distinct |
| ListBuilder.Flags | api/api_vbox/vboxmanage/_list.py:34-37 | `-s` is present iff sort, `-l` iff long, one entry per set flag, and `-s` comes before `-l` |
| ListBuilder.CommandLine | api/api_vbox/vboxmanage/_list.py:33-39 | the vector starts with `VBoxManage` and `list`, then holds exactly the flags, and ends with the directive; its length is 3 plus the number of flags |
| ListBuilder.Process | api/api_vbox/vboxmanage/_list.py:20-39 | the appends of `__process` produce `CommandLine` of the directive and flags |
| ListBuilder.List | api/api_vbox/vboxmanage/_list.py:41-129 | each directive method returns `__process` applied to its own token |
| ListBuilder.ListFlags | api/api_vbox/tests/test_list.py:11-51 | a directive's vector has `-s` iff sort and `-l` iff long |
| ListBuilder.ListDiffersOnlyInToken | api/api_vbox/tests/test_builder.py:7-11 | two directives' vectors for the same flags agree everywhere but the last entry, and that entry is equal iff the directives are |
| PyText.IsSpace | api/api_vbox/vboxmanage/_list.py:139-141 | `strip()` and `\s` on ASCII: tab, line feed, `\v`, `\f`, carriage return, the separators `\x1c`-`\x1f` and the space |
| PyText.Span | api/api_vbox/vboxmanage/_list.py:161 | a greedy character-class run stays in bounds and stops at a character outside the class |
| PyText.SpanRun | api/api_vbox/vboxmanage/_list.py:161 | every character of a greedy run is in the class |
| PyText.SpanExact | api/api_vbox/vboxmanage/_list.py:161 | a run of class characters followed by a non-class character or the end is exactly the greedy run |
| PyText.TrimmedEnd | api/api_vbox/vboxmanage/_list.py:139 | trimming from the right stops after a non-whitespace character or at the start |
| PyText.TrimmedEndRun | api/api_vbox/vboxmanage/_list.py:139 | everything trimmed from the right is whitespace |
| PyText.TrimmedEndExact | api/api_vbox/vboxmanage/_list.py:139 | a whitespace tail after a non-whitespace character is exactly what right trimming removes |
| PyText.Strip | api/api_vbox/vboxmanage/_list.py:141 | `strip()` never lengthens its input and leaves no whitespace at either end |
| PyText.StripRemovesEnds | api/api_vbox/vboxmanage/_list.py:141 | `strip()` returns a slice of its input with only whitespace before and after it |
| PyText.StripKeeps | api/api_vbox/vboxmanage/_list.py:141 | `strip()` leaves already stripped text unchanged |
| PyText.StripPadded | api/api_vbox/vboxmanage/_list.py:161 | stripping whitespace padding around stripped non-empty text gives that text back |
| PyText.StripAllSpace | api/api_vbox/vboxmanage/_list.py:161 | a whitespace-only string strips to the empty string |
| PyText.LowerChar | api/api_vbox/vboxmanage/_list.py:139 | a lower-cased character is not upper case, keeps its whitespace status, and only upper-case letters change |
| PyText.Lower | api/api_vbox/vboxmanage/_list.py:139 | `lower()` keeps the length and lower-cases each character in place |
| PyText.ReplaceChar | api/api_vbox/vboxmanage/_list.py:139 | `replace(" ", "_")` keeps the length and swaps exactly the matching characters |
| PyText.LowerAppend | api/api_vbox/vboxmanage/_list.py:139 | `lower()` of a concatenation is the concatenation of the lower-cased parts |
| PyText.ReplaceCharAppend | api/api_vbox/vboxmanage/_list.py:139 | `replace` of one character on a concatenation is the concatenation of the replaced parts |
| PyText.Delete | api/api_vbox/vboxmanage/_list.py:140 | `re.sub` of a character class leaves none of the class, never lengthens, and leaves class-free text unchanged |
| PyText.DeleteAppend | api/api_vbox/vboxmanage/_list.py:140 | deleting a character class from a concatenation is the concatenation of the deletions |
| PyText.DeleteKeepsAll | api/api_vbox/vboxmanage/_list.py:140 | a property shared by every input character holds for every character left after deleting |
| PyText.DeleteKeeps | api/api_vbox/vboxmanage/_list.py:140 | deleting adds no character that was not in the input |
| PyText.IndexOf | api/api_vbox/vboxmanage/_list.py:228 | a found position holds the separator, at or after the start |
| PyText.IndexOfFirst | api/api_vbox/vboxmanage/_list.py:228 | the found position is the first occurrence: any later occurrence means a position is found at or before it |
| PyText.PrefixBeforeFirst | api/api_vbox/vboxmanage/_list.py:228 | the text before the first occurrence holds no occurrence |
| PyText.SplitOn | api/api_vbox/vboxmanage/_list.py:172 | `split(sep)` always returns at least one part |
| PyText.SplitOnJoin | api/api_vbox/vboxmanage/_list.py:172 | joining the parts of `split(sep)` with `sep` gives the input back |
| PyText.SplitOnParts | api/api_vbox/vboxmanage/_list.py:228 | no part of `split(sep)` contains `sep` |
| PyText.SplitOnFirst | api/api_vbox/vboxmanage/_list.py:172 | text without the separator's first character, then the separator, then the rest, splits into that text and the split of the rest |
| PyText.SplitOnWhole | api/api_vbox/vboxmanage/_list.py:172 | text without the separator's first character splits into itself alone |
| PyText.CharContains | api/api_vbox/vboxmanage/_list.py:228 | a character in a string is an occurrence of the one-character separator |
| PyText.SplitLines | api/api_vbox/vboxmanage/_list.py:163 | `splitlines()` gives no lines exactly for the empty string |
| PyText.DropFinalEmpty | api/api_vbox/vboxmanage/_list.py:163 | dropping a final empty part leaves nothing exactly when the only part was empty |
| PyText.DropFinalEmptyCons | api/api_vbox/vboxmanage/_list.py:163 | dropping a final empty part does not touch the leading part |
| PyText.SplitLinesNoBreak | api/api_vbox/vboxmanage/_list.py:163 | no line of `splitlines()` holds a line break |
| PyText.SplitLinesFirst | api/api_vbox/vboxmanage/_list.py:163 | a line, a break and the rest split into that line followed by the lines of the rest |
| PyText.SplitLinesLast | api/api_vbox/vboxmanage/_list.py:163 | non-empty text without a break is one line |
| Dicts.Assigned | api/api_vbox/vboxmanage/_list.py:162-166 | the dictionary left by `d = {}` and then `d[k] = v` for each item that assigns, in order; an item that assigns nothing leaves it as it is |
| Dicts.AssignedLastWins | api/api_vbox/vboxmanage/_list.py:166 | every key holds the value of the last assignment to it |
| Dicts.AssignedHas | api/api_vbox/vboxmanage/_list.py:166 | a key of a dictionary filled by `d[k] = v` is present iff some item assigns it |
| Dicts.AssignedSize | api/api_vbox/vboxmanage/_list.py:191 | the dictionary has no more keys than there were assignments |
| Dicts.AssignedAt | api/api_vbox/vboxmanage/_list.py:190 | the last item assigning a key gives that key its value |
| Dicts.AssignedFrom | api/api_vbox/vboxmanage/_list.py:191 | every entry was assigned by some item with exactly that key and value |
| Dicts.AssignedSnoc | api/api_vbox/vboxmanage/_list.py:230 | one more assignment updates exactly that key, and no assignment changes nothing |
| ListParser.NormalizeKey | api/api_vbox/vboxmanage/_list.py:139-140 | a normalised key is no longer than the raw key and has no space, no upper-case letter and none of `( ) , .`; what it does to every key is stated by `NormalizeKeyPunctFirst` |
| ListParser.NormalizeKeySpaces | api/api_vbox/vboxmanage/_list.py:139-140 | any whitespace left in a normalised key was already in the raw key |
| ListParser.NormalizeKeyFixed | api/api_vbox/vboxmanage/_list.py:139-140 | a key with no whitespace, upper case or `( ) , .` is kept as it is, so characters such as `#` survive |
| ListParser.NormalizeKeyIdempotent | api/api_vbox/vboxmanage/_list.py:139-140 | normalising twice equals normalising once for keys whose only whitespace is the space character |
| ListParser.NormalizeKeyMaps | api/api_vbox/vboxmanage/_list.py:139-140 | for a stripped key without `( ) , .`, the normalised key has the same length, each space becomes `_`, each capital becomes its lower-case letter, and every other character stays in place |
| ListParser.UnderAppend | api/api_vbox/vboxmanage/_list.py:139 | lower-casing and then replacing spaces by `_` works piece by piece over a concatenation |
| ListParser.NormalizeStripped | api/api_vbox/vboxmanage/_list.py:139-140 | on a stripped key the normaliser is the deletion of `( ) , .` after lower-casing and replacing spaces |
| ListParser.NormalizeKeyDropsPunct | api/api_vbox/vboxmanage/_list.py:140 | in a stripped key, one of `( ) , .` anywhere is removed and nothing else changes: the key normalises exactly as it would without that character |
| ListParser.UnderDelete | api/api_vbox/vboxmanage/_list.py:139-140 | deleting `( ) , .` after lower-casing and replacing spaces gives the same text as deleting them first, since the mapping never makes or removes one of them |
| ListParser.NormalizeKeyPunctFirst | api/api_vbox/vboxmanage/_list.py:139-140 | for every key, the normalised key is the stripped key without `( ) , .`, with each remaining character mapped in place: a space to `_`, a capital to its lower-case letter, any other character to itself |
| ListParser.ParseKeyValue | api/api_vbox/vboxmanage/_list.py:137-141 | the returned key holds no space and the returned value has no whitespace at either end |
| ListParser.IsNameChar | api/api_vbox/vboxmanage/_list.py:161 | the classes `[_\d\w-]` and `[\d\w-]` are both the ASCII word characters and the hyphen |
| ListParser.MatchVmAt | api/api_vbox/vboxmanage/_list.py:161 | the pattern `"([_\d\w-]+)"\s+\{([\d\w-]+)\}` tried at one position: a quote, a greedy non-empty name run, a quote, a greedy non-empty whitespace run, `{`, a greedy non-empty id run, `}`; the name and id are the two groups |
| ListParser.MatchVmAtEnds | api/api_vbox/vboxmanage/_list.py:161 | a match of `"name"\s+{id}` is a quote, a name, a quote, whitespace, a brace, an id and a brace, and yields that name and id |
| ListParser.RunsOfMatch | api/api_vbox/vboxmanage/_list.py:161 | the three greedy runs of a match are a name, non-empty whitespace and an id |
| ListParser.MatchVmAtSound | api/api_vbox/vboxmanage/_list.py:161 | a match at a position is the text `"name"<gap>{id}` for some non-empty whitespace gap |
| ListParser.SearchVmFrom | api/api_vbox/vboxmanage/_list.py:161 | the search result stays within the text |
| ListParser.SearchVmLeftmost | api/api_vbox/vboxmanage/_list.py:161 | a position `re.search` reports holds a match and no earlier position does |
| ListParser.SearchVmNone | api/api_vbox/vboxmanage/_list.py:161 | `re.search` reports no match only when no position holds one |
| ListParser.SearchVm | api/api_vbox/vboxmanage/_list.py:161 | `re.search`: the match at the first position, scanning from the start, where the pattern matches, or none |
| ListParser.MatchVmAtParts | api/api_vbox/vboxmanage/_list.py:161 | a match is read off the ends of its three greedy runs |
| ListParser.MatchVmRuns | api/api_vbox/vboxmanage/_list.py:161 | quote, name, quote, whitespace, brace, id, brace at a position is a match there with that name and id |
| ListParser.MatchVmLine | api/api_vbox/vboxmanage/_list.py:161 | text starting with `"name"<gap>{id}` matches at its start with that name and id |
| ListParser.VmLineShape | api/api_vbox/vboxmanage/_list.py:161 | where the name, gap and id sit in the text `"name"<gap>{id}` |
| ListParser.SearchVmLine | api/api_vbox/vboxmanage/_list.py:161 | the stripped line `"name"<gap>{id}` yields exactly that name and id |
| ListParser.ShortLineOk | api/api_vbox/vboxmanage/_list.py:164-166 | a short-listing line is handled without raising iff it is empty or its stripped text has a match; otherwise `vm.group` raises on `None` |
| ListParser.ShortItem | api/api_vbox/vboxmanage/_list.py:164-166 | an empty line assigns nothing; any other line assigns its match's id to its match's name |
| ListParser.ShortVms | api/api_vbox/vboxmanage/_list.py:155-167 | the short listing fails when a non-empty line of `splitlines()` has no match; otherwise it is the dictionary the lines' items assign in order |
| ListParser.ParseShortVms | api/api_vbox/vboxmanage/_list.py:155-167 | the loop over the lines returns the short listing's dictionary, or fails where the code raises |
| ListParser.ShortVmsMalformed | api/api_vbox/vboxmanage/_list.py:163-166 | the short listing fails iff some non-empty line holds no `"name" {id}` |
| ListParser.BlankLineMalformed | api/api_vbox/vboxmanage/_list.py:164-166 | a whitespace-only line makes the short listing fail: only the empty line is skipped |
| ListParser.ShortVmsNoLines | api/api_vbox/vboxmanage/_list.py:163-164 | output whose lines are all empty gives the empty dictionary |
| ListParser.ShortItemDeclares | api/api_vbox/vboxmanage/_list.py:164-166 | a line assigns an id iff it is non-empty and its match has that id |
| ListParser.ShortVmsIds | api/api_vbox/vboxmanage/_list.py:163-167 | the dictionary's keys are exactly the ids the lines show |
| ListParser.ShortVmsLastLineWins | api/api_vbox/vboxmanage/_list.py:166 | an id maps to the name on the last line that shows it |
| ListParser.IsKeyChar | api/api_vbox/vboxmanage/_list.py:176 | the class `[\d\w\s)(,-/]` is the word characters, whitespace, `(`, `)` and the range `,-/`, that is `,`, `-`, `.` and `/` |
| ListParser.RestOfLine | api/api_vbox/vboxmanage/_list.py:176 | `(.*)` takes the prefix that ends at the first line break, or all of a text without one |
| ListParser.MatchField | api/api_vbox/vboxmanage/_list.py:176 | a matched line is a key of the class, a colon and the rest of the line, so the key is the text before the first colon |
| ListParser.MatchFieldLine | api/api_vbox/vboxmanage/_list.py:176 | `key:value` with a key of the class matches with that key, and the value may hold further colons |
| ListParser.NullIfEmpty | api/api_vbox/vboxmanage/_list.py:184-189 | a value becomes null iff it is `<none>` or empty |
| ListParser.FieldOf | api/api_vbox/vboxmanage/_list.py:176-190 | a kept field has a key without spaces and a value that is null or stripped, non-empty and not `<none>` |
| ListParser.FieldOfLine | api/api_vbox/vboxmanage/_list.py:176-190 | `key:value` stores the normalised key with the stripped value, null for `<none>` or empty |
| ListParser.BlockOk | api/api_vbox/vboxmanage/_list.py:174-191 | a long-listing block is handled without raising iff it is empty or its record has a `uuid` field; otherwise `vm["uuid"]` raises `KeyError` |
| ListParser.RecordOf | api/api_vbox/vboxmanage/_list.py:173-190 | a block's record is what its matching lines assign in order, each a normalised key with its nulled value |
| ListParser.BlockItem | api/api_vbox/vboxmanage/_list.py:191 | a block's record is stored under the value of its own `uuid` field |
| ListParser.LongVms | api/api_vbox/vboxmanage/_list.py:169-192 | the long listing splits on `"\n\n\n"`; it fails when a non-empty block has no `uuid` field, otherwise it is the dictionary of records the non-empty blocks assign under their `uuid` values, in order |
| ListParser.ParseRecord | api/api_vbox/vboxmanage/_list.py:173-190 | the inner loop over a block's lines returns that block's record |
| ListParser.LongStepRecord | api/api_vbox/vboxmanage/_list.py:191 | storing a block's record under its `uuid` is one step of the long listing's dictionary, and the blocks so far stay well formed |
| ListParser.LongStepEmpty | api/api_vbox/vboxmanage/_list.py:174 | an empty block leaves the dictionary as it is and keeps the blocks so far well formed |
| ListParser.LongVmsFailsAt | api/api_vbox/vboxmanage/_list.py:191 | a non-empty block without a `uuid` field makes the long listing fail |
| ListParser.ParseLongVms | api/api_vbox/vboxmanage/_list.py:169-192 | the nested loops over blocks and lines return the long listing's dictionary, or fail where the code raises |
| ListParser.LongVmsKeyedByUuid | api/api_vbox/vboxmanage/_list.py:191 | every record of the result is stored under its own `uuid` value |
| ListParser.LongVmsMalformed | api/api_vbox/vboxmanage/_list.py:174-191 | the long listing fails iff some non-empty block has no `uuid` field |
| ListParser.UuidFromLine | api/api_vbox/vboxmanage/_list.py:175-190 | a block has a `uuid` field iff one of its lines has the key `uuid` |
| ListParser.BlockAssignments | api/api_vbox/vboxmanage/_list.py:174 | no more blocks assign a record than there are non-empty blocks |
| ListParser.LongVmsSize | api/api_vbox/vboxmanage/_list.py:172-191 | the result has no more records than there are non-empty blocks |
| ListParser.LongVmsLastBlockWins | api/api_vbox/vboxmanage/_list.py:191 | a `uuid` value maps to the record of the last block carrying it |
| ListParser.RecordValues | api/api_vbox/vboxmanage/_list.py:184-190 | no stored value is the string `<none>` or empty, and each is stripped |
| ListParser.HostBody | api/api_vbox/vboxmanage/_list.py:226 | `splitlines()[2:]`: the lines after the first two, none when there are at most two |
| ListParser.HostLineOk | api/api_vbox/vboxmanage/_list.py:227-228 | a host-information body line is handled without raising iff splitting it on `": "` gives exactly two parts, as the two-argument call needs |
| ListParser.HostItem | api/api_vbox/vboxmanage/_list.py:227-229 | a body line splitting on `": "` into exactly two parts assigns the normalised first part to the stripped second part; any other line assigns nothing |
| ListParser.HostInfo | api/api_vbox/vboxmanage/_list.py:213-231 | the host-information listing fails when a body line does not split into exactly two parts; otherwise it is the dictionary the body lines assign in order |
| ListParser.ParseHostInfo | api/api_vbox/vboxmanage/_list.py:213-231 | the loop over the body lines returns the host-information dictionary, or fails where the code raises, whatever the long flag |
| ListParser.HostInfoHeader | api/api_vbox/vboxmanage/_list.py:226 | the title line and the line after it are dropped, so they never give keys |
| ListParser.HostInfoHeaderOnly | api/api_vbox/vboxmanage/_list.py:226 | output of at most two lines gives the empty dictionary |
| ListParser.HostInfoEmptyLine | api/api_vbox/vboxmanage/_list.py:226-229 | an empty body line makes the host-information listing fail |
| ListParser.HostItemParts | api/api_vbox/vboxmanage/_list.py:227-229 | a well-formed body line is key, `": "`, value with no separator in either, and stores the normalised key with the stripped value |
| ListParser.HostItemLine | api/api_vbox/vboxmanage/_list.py:227-230 | `key: value` with no colon in either stores the normalised key with the stripped value |
| ListParser.HostItemAssigns | api/api_vbox/vboxmanage/_list.py:227-230 | in a well-formed body, a line assigns exactly the normalised text before its separator |
| ListParser.HostInfoKeys | api/api_vbox/vboxmanage/_list.py:226-231 | the dictionary's keys are exactly the normalised keys of the body lines |
| ListParser.HostInfoLastLineWins | api/api_vbox/vboxmanage/_list.py:230 | a key maps to the stripped value of the last body line carrying it |
| ListParser.Vms | api/api_vbox/vboxmanage/_list.py:194 | the long listing when the flag is set, the short listing otherwise |
| ListParser.ParseVms | api/api_vbox/vboxmanage/_list.py:143-194 | the long grammar is used when the flag is set, the short grammar otherwise |
| ListParser.ParseRunningVms | api/api_vbox/vboxmanage/_list.py:196-211 | `parse_runningvms` gives the same result as `parse_vms` on the same input and flag |
| ListExamples.EmptyOutputListsNothing | api/api_vbox/tests/test_list.py:60 | empty output lists no VM |
| ListExamples.LineBreakListsNothing | api/api_vbox/tests/test_list.py:61 | a lone line break lists no VM |
| ListExamples.SplitLinesTwo | api/api_vbox/tests/test_list.py:62-64 | two lines, each ending in a break, are two lines |
| ListExamples.AssignedTwo | api/api_vbox/tests/test_list.py:65-68 | two assignments in a row give both keys, the second value winning |
| ListExamples.VmLineNoBreak | api/api_vbox/tests/test_list.py:62-64 | a VM line holds no line break |
| ListExamples.ShortVmsOne | api/api_vbox/tests/test_list.py:104-106 | output whose only line matches lists that one VM |
| ListExamples.OneVmLine | api/api_vbox/tests/test_list.py:104-106 | one VM line without a final break lists that VM |
| ListExamples.ShortItemsTwo | api/api_vbox/tests/test_list.py:62-68 | two matching lines are well formed and assign their two VMs |
| ListExamples.ShortVmsTwo | api/api_vbox/tests/test_list.py:62-68 | output of two matching lines lists both VMs |
| ListExamples.TwoVmLines | api/api_vbox/tests/test_list.py:97-103 | two VM lines, each ending in a break and with any whitespace gap, list both VMs by id |

## Left out

- Process execution, the web API and its reflective dispatch by directive
  name live in `api/api_vbox/main.py`, which is not part of this model.
- The singleton accessor in `api/api_vbox/vboxmanage/vboxmanage.py` holds no
  logic and is not part of this model.
- `CLI` from `api/api_vbox/vboxmanage/_vboxcommand.py:9` is the constant
  `ListBuilder.CLI`.
- Characters are ASCII. The regex classes `\w` and `\s` and the string
  methods `str.lower` and `str.strip` are not modelled on the rest of
  Unicode.
- `splitlines()` is modelled on `\n` only. The other line boundaries
  Python recognises (`\r`, `\r\n`, `\v`, `\f`, `\x1c`-`\x1e`, `\x85`,
  `\u2028`, `\u2029`) are not.
- Dictionary insertion order is not modelled: the results are Dafny maps.
  Only their keys and values are.
- The long-listing and host-information fixture files under `tests/data`
  are not part of this model. Counts such as the number of fields per
  record in them are not stated.
- `ListParser.NormalizeKey` is not evaluated on literal keys such as
  `Processor#0 Speed` or `SATA (0, 0)`. `ListParser.NormalizeKeyPunctFirst`
  states the result for every key in general terms instead.
- The Python exceptions themselves are all one failure result,
  `Malformed`. Which exception would be raised is not modelled.
