# Watcher: a verified model of the file-organizing core

Watcher is a small tool. It watches folders and moves each newly created top-level file into a
sub-folder named after its category. The category comes from the file's extension, looked up in
an ordered table of rules. The tool also has a small GUI that edits those rules as text and keeps
a list of watched folders.

This project models the deterministic core of that tool in Dafny and proves what it promises:

- **Rule table** (`Rules`):
  - The built-in `DEFAULT_RULES`.
  - `normalize_rules`, which lower-cases extensions and strips their leading dots.
  - The `rules or DEFAULT_RULES` choice a watcher makes.
  - `get_category_for_ext`, the first-match lookup in declaration order.
- **Structured rules** (`RulesJson`): `parse_rules_json` applied to the value that `json.loads`
  decoded. It keeps the list-valued keys and turns their elements into strings.
- **Collision-free names** (`Naming`): pathlib's `stem`/`suffix` split and `unique_destination`,
  which picks `name` or `stem (k)suffix` for the least free `k`.
- **Event handling** (`Handler`): the decision part of `CreatedHandler.on_created`. It covers:
  - Which events are handled at all: no directories, nothing outside the root, nothing in
    sub-folders.
  - How the extension is read off a name.
  - Which category the file gets and which directory and name it is moved to.
- **Text rules** (`RulesText`): the GUI's `parse_rules_text`, which reads lines of the form
  `Category = ext1, ext2`.
- **Folder list** (`Folders`): the list logic of the GUI's `add_or_update`. It validates the form,
  then replaces the entry with the same path in place or appends a new one.

Supporting modules model the Python behaviour the code relies on:

- `Wrappers`: `Option` and `Result`.
- `PyStr`, the string methods used:
  - `isspace` with Python's full whitespace set.
  - `strip`, `lstrip(c)`.
  - `lower` (ASCII letters only).
  - `find`/`rfind` of one character, `split(sep)`.
  - `splitlines` with Python's full line-boundary set, treating `\r\n` as one boundary.
  - `str` of an integer.
- `PyDict`: an insertion-ordered `dict`, written as a sequence of key/value items. Assigning to a
  key that is present replaces its value where it stands; a new key goes at the end. Every dict
  the code builds by assignment is a `PutAll` of its items, so "the last value wins and the first
  position is kept" is proved once, in `PutAllKeys` and `PutAllGet`.

How the modelled pieces are represented:

- Paths are sequences of components.
- A destination directory's contents are a `set<string>` of names.
- The readiness probe (`wait_for_file_ready`) is a boolean parameter.
- The listing of the destination directory is a function parameter.

In structured rules, a value that is not a list is skipped and the rest of the object is still
used (organizer.py:152-154).

## Model

| member | source | states |
|---|---|---|
| Rules.DefaultListNormal | organizer.py:13-22 | every list of the built-in table is already in normal form (non-empty, lower-case, no leading dot) |
| Rules.DefaultRulesInUse | organizer.py:109 | with no rules or an empty dict, the table a watcher uses is exactly `DEFAULT_RULES`, unchanged by normalisation |
| Rules.NormalizeExtIsNormal | organizer.py:28 | a normalised extension has no capital letter and no leading dot |
| Rules.NormalizeExt | organizer.py:28 | the normalised entry is the lower-cased entry without its leading run of dots: only dots are removed, and the result does not start with one |
| Rules.NormalizeExtFixesNormal | organizer.py:28 | an extension already in normal form is left unchanged |
| Rules.NormalizeExtIdempotent | organizer.py:28 | normalising twice is the same as normalising once |
| Rules.KeepNonEmpty | organizer.py:28 | the `if e` filter keeps exactly the non-empty entries |
| Rules.NormalizeExts | organizer.py:28 | the output list has one entry per non-empty input entry |
| Rules.NormalizeExtsSpec | organizer.py:28 | each output entry is the normalised form of the matching non-empty input, in order; every output is normal; the output is no longer than the input |
| Rules.DotBecomesEmptyExtension | organizer.py:28 | `""` is dropped, but `"."` survives as the empty extension and `"..JPG"` becomes `"jpg"` |
| Rules.NormalizeRules | organizer.py:25-29 | the normalised table is a real dict with exactly the categories of the input, whatever the input |
| Rules.NormalizeRulesSpec | organizer.py:25-29 | on a real dict, `normalize_rules` keeps exactly the input categories in their order, including ones whose list becomes empty, and normalises each list |
| Rules.NormalizeExtsOfNormal | organizer.py:28 | normalising a normal extension list gives it back |
| Rules.NormalizeNormalTable | organizer.py:25-29 | normalising an already normal real dict gives it back |
| Rules.RulesInUse | organizer.py:109 | the table a watcher uses is a real dict; its categories are those of the given rules when there are any, and those of `DEFAULT_RULES` otherwise |
| Rules.GetCategoryForExt | organizer.py:32-36 | the result is the category at the first index whose list holds `ext`; it is the unknown target when no list holds `ext`; it is always the unknown target or a key |
| Rules.FirstMatchExists | organizer.py:33-35 | some list holds `ext` exactly when there is a first such list |
| Rules.UniqueMatchWins | organizer.py:32-36 | an extension held by exactly one category is classified there |
| Naming.StemSuffixSpec | organizer.py:55-56 | stem followed by suffix is the name; a suffix is a dot and at least one more character, none of them a dot, after a non-empty stem |
| Naming.Suffix | organizer.py:56 | a suffix is a tail of the name; when present it is a dot and at least one more character, none of them a dot |
| Naming.Stem | organizer.py:55 | a stem is a head of the name, and a non-empty name has a non-empty stem |
| Naming.SuffixOfDottedName | organizer.py:55-56 | `stem.tail`, with non-empty `stem` and a non-empty dot-free `tail`, splits into `stem` and `.tail` |
| Naming.NoSuffixWithoutDot | organizer.py:55-56 | a name without a dot has no suffix and is its own stem |
| Naming.Candidate | organizer.py:60 | an alternative name starts with the stem, ends with the suffix, and is at least four characters longer than both together |
| Naming.CandidateInjective | organizer.py:60 | different counters give different alternative names |
| Naming.AlternativesSize | organizer.py:58-61 | the first `n` alternative names are `n` distinct names, so at most `len(existing)` of them can be taken |
| Naming.UniqueDestination | organizer.py:54-62 | the name picked is free; it is `filename` when that is free; otherwise it is `stem (k)suffix` for a `k >= 1` whose predecessors are all taken |
| Naming.ChosenNameUnique | organizer.py:57-62 | at most one name meets that description, so the pick is determined |
| Naming.ATxtSplit | organizer.py:55-56 | `a.txt` splits into `a` and `.txt` |
| Naming.ATxtAlternatives | organizer.py:60 | the first two alternatives of `a.txt` are `a (1).txt` and `a (2).txt` |
| Naming.FirstAlternativeExample | organizer.py:57-62 | with `a.txt` taken, the pick is `a (1).txt` |
| Naming.SecondAlternativeExample | organizer.py:57-62 | with `a.txt` and `a (1).txt` taken, the pick is `a (2).txt` |
| Handler.RelativeTo | organizer.py:79-83 | `relative_to` gives the components after the root, which rebuild the path, and fails exactly when no components do |
| Handler.Name | organizer.py:88 | `src_path.name` is the last component: the path is its parent followed by the name, and an empty path has the empty name |
| Handler.IsTopLevelFile | organizer.py:75-86 | an event is handled exactly when it is not a directory, its path lies under the root, and the part below the root has at most one component |
| Handler.JoinPath | organizer.py:96 | `root / category` lies directly in the root, or is the root itself; it is the root exactly when the category is empty or `.`, and is otherwise named after the category |
| Handler.Extension | organizer.py:94 | the extension is a tail of the lower-cased suffix and does not start with a dot |
| Handler.ExtensionSpec | organizer.py:94 | the extension is empty exactly when there is no suffix; otherwise it is the suffix after its dot, lower-cased; it never holds a dot or a capital |
| Handler.ExtensionOfDottedName | organizer.py:94 | the extension of `stem.tail` is `tail` lower-cased |
| Handler.Classify | organizer.py:94-95 | the category is always the unknown target or a rules key |
| Handler.NoSuffixGoesToUnknown | organizer.py:95 | a name without a suffix goes to the unknown target without consulting the rules, even when a list holds `""` |
| Handler.SuffixGoesToFirstMatch | organizer.py:94-95 | a name with a suffix goes to the first category listing its lower-cased extension, or to the unknown target when none does |
| Handler.ClassifyIgnoresCase | organizer.py:94 | the case of the extension does not change the category |
| Handler.ScenarioPhoto | organizer.py:94-95 | with `{"Images": ["jpg"]}`, `photo.jpg` goes to `Images` |
| Handler.ScenarioNotes | organizer.py:94-95 | with the same rules, `notes.txt` goes to the unknown target |
| Handler.ScenarioArchive | organizer.py:94-95 | with the same rules, `archive` goes to the unknown target |
| Handler.OnCreated | organizer.py:73-98 | an event is ignored exactly when it is a directory, lies outside the root or lies below a sub-folder; a handled file that is not ready is reported; otherwise the file goes to `root / category` with the classified category (a key or the unknown target) under the name `unique_destination` picks there |
| RulesJson.ToPyStr | organizer.py:154 | a string element stays itself; an integer prints as a non-empty string that starts with `-` exactly when it is negative, and whose digits read back as its magnitude |
| RulesJson.StrList | organizer.py:154 | `[str(x) for x in exts]` has one string per element, and a string element is kept unchanged at its position |
| RulesJson.DecodeObject | organizer.py:149 | the decoded object is a real dict whose keys are the member names in order of first appearance |
| RulesJson.DecodeObjectGet | organizer.py:149 | each key of the decoded object holds the value of its last member |
| RulesJson.ListItems | organizer.py:152-154 | the list-valued items are no more than the decoded items |
| RulesJson.ListItemsSpec | organizer.py:152-154 | on a real dict, a key is kept with its stringified list exactly when its value is a list, each key once, and the kept keys are the list-valued keys of the dict in its own order |
| RulesJson.ParseRulesJsonSpec | organizer.py:145-157 | an empty option gives `None`; undecodable text or a non-object is an error; an object gives `None` exactly when no value is a list, and otherwise a real dict mapping each list-valued key to its stringified list, the keys in order of first appearance in the document |
| RulesJson.ParseRulesJson | organizer.py:145-157 | the result is an error exactly when the text did not decode or decoded to something other than an object; a parsed table is never empty and is a real dict |
| RulesText.ExtTokensSpec | gui.py:49 | the extension tokens are exactly the non-empty stripped comma pieces, each trimmed |
| RulesText.ExtTokensShape | gui.py:49 | tokens cut from comma-free pieces are non-empty, trimmed and comma-free |
| RulesText.ParseLine | gui.py:42-51 | a line that contributes carries a non-empty extension list |
| RulesText.SkippedLines | gui.py:43-46 | blank lines, `#` lines and lines without `=` contribute nothing |
| RulesText.FirstEqualsSplits | gui.py:47-51 | a stripped line `c = rest` with no `=` in `c` contributes the stripped `c` with the tokens of `rest` (later `=` stay in `rest`), or nothing when no token is left |
| RulesText.ParseLineShape | gui.py:47-50 | a contribution has a trimmed category without `=` and a non-empty list of trimmed, comma-free extensions |
| RulesText.ContributionsNonEmpty | gui.py:50-51 | every contribution has a non-empty list |
| RulesText.ContributionsConcat | gui.py:41-51 | the lines contribute one after another, in order |
| RulesText.SilentLineChangesNothing | gui.py:50-51 | deleting a line that contributes nothing changes nothing: it neither adds nor overwrites a category |
| RulesText.BlankTextGivesNone | gui.py:37-39 | text made only of whitespace gives `None` |
| RulesText.ParseRulesText | gui.py:36-52 | a parsed table is never empty and is a real dict |
| RulesText.ParseRulesTextSpec | gui.py:36-52 | the result is `None` exactly when no line contributes; otherwise it is a real dict whose categories appear in order of first contribution, each holding the list of its last contributing line, with no empty list |
| Folders.UnknownTarget | gui.py:148 | the unknown target is never empty |
| Folders.UnknownTargetSpec | gui.py:148 | a blank field gives `Other`; any other field gives the field stripped, which is trimmed |
| Folders.AddOrUpdate | gui.py:143-160 | a blank path is an error; otherwise the first entry with that path is replaced in place and nothing else changes, or, with no such entry, the entry is appended; distinct paths stay distinct |
| Folders.FirstWithPathExists | gui.py:153-158 | some entry has the path exactly when there is a first one, so the update replaces in place exactly then |
| PyDict.Get | organizer.py:152-153 | a lookup finds a value exactly when the key is present; the `isinstance` test is made on the value the key holds |
| PyDict.GetDistinct | organizer.py:152 | in a real dict, iterating `items()` pairs each key with the value a lookup of that key finds |
| PyDict.Put | gui.py:51 | after `d[k] = v` the key holds `v`, other keys are unchanged, and the key order is unchanged or has `k` appended |
| PyDict.PutFresh | organizer.py:28 | assigning an absent key appends one item |
| PyDict.PutPresent | gui.py:51 | assigning a present key changes that one item in place |
| PyDict.PutDistinct | gui.py:51 | a dict stays a dict under assignment |
| PyDict.PutAll | gui.py:50-51 | a run of assignments never shrinks the dict |
| PyDict.LastFor | gui.py:51 | the value of the last item with a key, present exactly when some item has the key |
| PyDict.PutAllKeys | gui.py:51 | after a run of assignments the keys are the old keys followed by the new ones in order of first assignment |
| PyDict.PutAllGet | gui.py:51 | after a run of assignments a key holds its last assigned value, or its old value when never assigned |
| PyDict.PutAllDistinct | gui.py:51 | a run of assignments keeps keys distinct |
| PyDict.PutAllCopies | organizer.py:27-29 | assigning the items of a real dict one by one after a dict without those keys appends them unchanged |
| PyStr.IsSpace | gui.py:37 | the characters for which `str.isspace()` holds: space, tab and newline are among them, and no ASCII letter, digit, `=`, `,`, `#` or `.` is |
| PyStr.IsLineBoundary | gui.py:41 | the characters at which `str.splitlines()` breaks a line: `\n` and `\r` are among them, and no printable ASCII character is |
| PyStr.LStripSpec | gui.py:37 | `lstrip` removes a prefix made only of whitespace and stops at a non-space character |
| PyStr.RStripSpec | gui.py:37 | `rstrip` removes a suffix made only of whitespace and stops at a non-space character |
| PyStr.StripSpec | gui.py:48 | `strip` keeps a contiguous middle part, removes only whitespace and leaves a trimmed string |
| PyStr.StripKeepsOut | gui.py:47-48 | `strip` introduces no character |
| PyStr.StripEmptyIff | gui.py:37-38 | `strip` gives the empty string exactly when every character is whitespace |
| PyStr.StripIdempotent | gui.py:42 | stripping twice is stripping once |
| PyStr.LowerSpec | organizer.py:28 | `lower` leaves no capital, fixes a lower-case string and keeps every non-letter in place |
| PyStr.LowerConcat | organizer.py:94 | `lower` works piece by piece |
| PyStr.LowerKeeps | organizer.py:94 | a character that is not a letter occurs in `s.lower()` exactly when it occurs in `s` |
| PyStr.LStripCharSpec | organizer.py:28 | `lstrip(c)` removes a prefix made only of `c` and stops at another character |
| PyStr.Find | gui.py:47 | `find` gives the first index of the character, or none when it is absent |
| PyStr.RFind | organizer.py:55-56 | `rfind` gives the last index of the character, or none when it is absent |
| PyStr.RFindBeforeTail | organizer.py:55-56 | the last `c` of `a + c + b` is the one after `a` when `b` holds none |
| PyStr.Split | gui.py:49 | `split(sep)` gives at least one piece and no piece holds the separator |
| PyStr.SplitJoin | gui.py:49 | joining the pieces of a split with the separator gives the string back |
| PyStr.JoinSplit | gui.py:49 | splitting separator-free pieces joined with the separator gives the pieces back |
| PyStr.SplitLines | gui.py:41 | there are no lines exactly when the text is empty |
| PyStr.FirstBoundarySpec | gui.py:41 | the first line ends at a line boundary, and no boundary comes before it |
| PyStr.SplitLinesNoBoundary | gui.py:41 | no line holds a line boundary |
| PyStr.SplitLinesRebuild | gui.py:41 | there is one terminator per line, and each line followed by its terminator rebuilds the text |
| PyStr.LineEndsValid | gui.py:41 | every terminator is `\r\n` or one boundary character, except that the last line has none exactly when the text does not end with a boundary |
| PyStr.CrLfIsOneTerminator | gui.py:41 | a `\r` directly followed by `\n` ends one line: a line ended by a lone `\r` is never followed by an empty line ended by `\n` |
| PyStr.SplitLinesIsSplitOnNewline | gui.py:41 | on text whose only boundaries are `\n` and which does not end with one, `splitlines` is `split("\n")` |
| PyStr.NatToString | organizer.py:60 | `str(n)` is a non-empty run of decimal digits with no leading zero unless `n` is 0 |
| PyStr.DecimalRoundTrip | organizer.py:60 | reading back the decimal digits of `n` gives `n` |
| PyStr.NatToStringInjective | organizer.py:60 | different numbers print differently |
| PyStr.IntToString | organizer.py:154 | `str(i)` of an integer is non-empty and starts with `-` exactly when `i` is negative |

## Left out

- The watchdog `Observer` and the lifecycle of `start_watcher` and `start_watchers`: scheduling, start, stop and join (organizer.py:107-122). These belong to a foreign library and background threads. Only the rule choice at organizer.py:109 is modelled (`RulesInUse`).
- `wait_for_file_ready` (organizer.py:43-51): it opens files and sleeps. Its outcome is the `ready` parameter of `OnCreated`.
- The effects of `on_created`: `mkdir`, `shutil.move`, its failure message and the `print` logging (organizer.py:97-104). These are filesystem I/O. `OnCreated` returns the move it would perform. The `mkdir` of `ensure_directory` (organizer.py:97) runs outside the `try`, so a failure there escapes `on_created`. One example: a suffix-less file named exactly like the unknown target, say `Other`, makes `root / "Other"` the file itself. For that event `OnCreated` still returns `Move` with `destDir` equal to the source path.
- `Path.exists` on candidate names: this is the `listing` parameter, the set of names already in the destination directory.
- `json.loads`: the model starts from the decoded value. JSON floats are not modelled. Python's `str` of a nested list or dict is a parameter (`containerRepr`).
- `argparse`, `main`, `Path.resolve` and `expanduser`: library calls with no visible source.
- `create_test_files` (organizer.py:125-142): it only writes fixed sample files to disk.
- The Tk widgets, the settings load and save, and the GUI's threaded runner (gui.py:20-34 and gui.py:55-246, apart from the list logic of `add_or_update`). These are UI, file I/O and concurrency. `AddOrUpdate` returns the new list; refreshing the list box and saving settings are not modelled.
- extract_icon.py is not part of this model: it is a stand-alone script that converts an icon.
- PyStr.LowerSpec: `lower` is modelled on ASCII letters only. Python lower-cases every Unicode letter.
- Handler.OnCreated: paths are compared component by component, as on POSIX. Windows' case-insensitive comparison and a separator inside a category name are not modelled.
- Rules.GetCategoryForExt: "the unknown target exactly when no list holds the extension" holds only one way. When the unknown target is itself the name of a matching category, the result is the unknown target although a list holds the extension. The contract states first-match-or-unknown, which is exact.
- Handler.IsTopLevelFile: the path of the root itself has no components below the root, so the code's `len(rel.parts) > 1` test lets it through. The model keeps that behaviour; such an event is normally a directory event and ignored anyway.
- PyStr.NatToString: Python's limit on the number of digits of `str(int)` is not modelled.
- Naming.Suffix: follows pathlib's rule as of Python 3.13 and earlier, where a name ending in a dot has no suffix (so the first alternative of `report.` is `report. (1)`). Python 3.14 changed the rule so that a trailing dot counts as a suffix, which would give `report (1).`. The model does not follow that change.
