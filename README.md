# ServicesBackup reconciliation core in Dafny

ServicesBackup saves the configuration of every Windows service to a JSON
snapshot: its `Name`, `DisplayName` and `StartType`. Later it compares that
snapshot with the live system. This project models the data handling of
`Program` in `main.py` and proves properties of it:

- **Loading** (`load_services_from_file`). A parsed JSON value is accepted
  only if it is a list of objects, and only if every object carries the
  three saved keys. The records then come back stably sorted by
  `DisplayName`.
- **Shaping the live list** (the end of `list_services`). Each record is cut
  down to the three saved keys, and the list is sorted the same way.
- **The strict diff** (`configurations_difference`). It fails on a count
  mismatch or on an unknown name. Otherwise it gives one
  `{OldValue, NewValue}` map per record that differs from its namesake.
- **The name normalizer**: `re.sub(r"_[a-z0-9]{,10}$", "", name)`.
- **The tolerant diff** (`print_backup_difference`). Printing is replaced
  by a returned `DiffReport` with three lists:
  - `changed`: matched services whose `StartType` moved, each shown as an
    `"old -> new"` overlay;
  - `deleted`: services of the backup that are not live;
  - `added`: live services that are not in the backup (Python's `new`).
  With `ignore_suffix`, both sides are first rekeyed by normalized name.

Modules:

| file | module | content |
|---|---|---|
| `wrappers.dfy` | `Wrappers` | `Option`, `Result` |
| `ordered_dict.dfy` | `OrderedDict` | a Python `dict` as an association list |
| `services.dfy` | `Services` | records, saved keys, the name index |
| `display_order.dfy` | `DisplayOrder` | Python `str` order and the stable sort by display name |
| `normalizer.dfy` | `Normalizer` | the suffix-stripping regular expression |
| `snapshot.dfy` | `Snapshot` | parsed JSON, loading, the live-list projection |
| `strict_diff.dfy` | `StrictDiff` | `configurations_difference` |
| `tolerant_diff.dfy` | `TolerantDiff` | `print_backup_difference` |

### Representation

- **Records.** A record is a `map<string, string>`, as in the program.
  Records read from a file keep any extra keys. Such keys take part in
  whole-record comparison, as they do in Python.
- **Dicts.** A Python `dict` is a `seq<(string, V)>`:
  - `Put` is `d[k] = v`: an existing key keeps its position and takes the
    new value, and a new key goes last;
  - `FromPairs` is a dict comprehension, in which later pairs overwrite
    earlier ones.
- **Methods and specifications.** Code that loops in place is written as
  methods with loop invariants: the two validation loops of loading, the
  strict-diff loop, the rekeying loop and the changed-services loop. Each
  method's postcondition equates its result with a specification function
  (`Loaded`, `StrictEntries`, `Rekeyed`, `Drift`). The lemmas are stated
  about those functions.

## Model

| member | source | states |
|---|---|---|
| `OrderedDict.Get` | main.py:107 | a lookup succeeds exactly when the key is present; the value found is stored under that key, and with unique keys it is that key's only value |
| `OrderedDict.Put` | main.py:126 | after `d[k] = v`, `k` maps to `v` and every other key keeps its value; the key set gains `k`; keys stay unique; an existing key keeps its position; a new key is appended |
| `OrderedDict.FromPairs` | main.py:100 | a dict comprehension has unique keys, the same key set as its pairs, and only entries taken from its pairs |
| `OrderedDict.FromPairsLastWins` | main.py:100 | the value under a key is the value of that key's last pair |
| `OrderedDict.FromPairsKeyOrder` | main.py:100 | keys appear in the order of their first pair |
| `OrderedDict.FromPairsSnoc` | main.py:121-126 | one more pair in the comprehension equals one more `d[k] = v` in the loop |
| `Services.Project` | main.py:95 | the projection keeps exactly the saved keys the record has, with their values; a record with all three keeps exactly those three |
| `Services.IndexByName` | main.py:100 | the name index has unique keys; every key is the `Name` of its record; the key set is the set of names; every value comes from the list; saved-key facts carry over |
| `Services.IndexByNameLastWins` | main.py:100 | a name maps to the last record carrying it |
| `Services.IndexByNameUnique` | main.py:100 | with unique names, every record is the entry of its own name |
| `DisplayOrder.StrLessEq` | main.py:39 | Python's `<=` on `str`; a string sorts no later than any string it is a prefix of |
| `DisplayOrder.StrLessEqIsLexicographic` | main.py:39 | the order holds exactly when the first string is a prefix of the second or is smaller at the first position where they differ |
| `DisplayOrder.StrLessEqRefl` | main.py:39 | Python's `str` order is reflexive |
| `DisplayOrder.StrLessEqTotal` | main.py:39 | Python's `str` order is total |
| `DisplayOrder.StrLessEqTrans` | main.py:39 | Python's `str` order is transitive |
| `DisplayOrder.StrLessEqAntisym` | main.py:39 | Python's `str` order is antisymmetric |
| `DisplayOrder.Insert` | main.py:39 | insertion adds exactly one record and keeps a sorted list sorted |
| `DisplayOrder.SortByDisplayName` | main.py:39 | the sort is non-decreasing by display name and a permutation of its input |
| `DisplayOrder.InsertKeepsGroups` | main.py:39 | insertion puts the new record in front of the records that share its display name |
| `DisplayOrder.SortIsStable` | main.py:39 | records sharing a display name keep their input order |
| `DisplayOrder.SortOfSortedIsIdentity` | main.py:39 | sorting a sorted list returns it unchanged |
| `DisplayOrder.SortIsIdempotent` | main.py:96 | sorting twice is sorting once |
| `Normalizer.LastUnderscore` | main.py:123 | finds the last `_` of the name, or reports that there is none |
| `Normalizer.SuffixMatchAt` | main.py:123 | the pattern `_[a-z0-9]{,10}$` matches from position `p` to the end; a match can only start at the last `_` of the name |
| `Normalizer.StripAtEnd` | main.py:123 | if the pattern matches at the end, the result is the text before that match; otherwise the text is unchanged |
| `Normalizer.NormalizeName` | main.py:123 | the result is at most 11 characters shorter than the name and no longer; without a final newline it is a prefix of the name |
| `Normalizer.StripsMatchedSuffix` | main.py:123 | `stem + "_" + tail`, with a tail of at most ten `[a-z0-9]` characters, normalizes to `stem` |
| `Normalizer.KeepsUnmatchedName` | main.py:123 | a name with no match is returned unchanged |
| `Normalizer.NoMatchWhenTailRejected` | main.py:123 | a tail after the last `_` that is longer than ten characters, or holds a character outside `[a-z0-9]`, gives no match |
| `Normalizer.StripExamples` | main.py:123 | `Foo_ab12` and `Foo_` become `Foo`; `MyService_ab12x` becomes `MyService` |
| `Normalizer.KeepExamples` | main.py:123 | `Foo_abcdefghijk`, `Foo_AB` and `Foo` are unchanged |
| `Normalizer.NewlineExample` | main.py:123 | `$` also matches before a final newline: `Foo_ab\n` becomes `Foo\n` |
| `Snapshot.Objects` | main.py:32 | the records of a list of objects, in order |
| `Snapshot.MissingSavedKey` | main.py:35-36 | gives the first saved key, in `_only_save_rows` order, that the record lacks: `DisplayName` only when `Name` is present, `StartType` only when both are; none exactly when it has all three |
| `Snapshot.FirstMissing` | main.py:34-38 | there is a record missing a key exactly when some record lacks a saved key |
| `Snapshot.Loaded` | main.py:32-40 | a successful load came from a list of objects, and every loaded record carries the saved keys |
| `Snapshot.LoadServices` | main.py:32-40 | the nested validation loops and the sort compute `Loaded` |
| `Snapshot.IsServiceList` | main.py:32 | the shape test: an empty list passes (`all` of nothing holds), a bare object fails, and a list holding any non-object fails |
| `Snapshot.LoadRejectsShape` | main.py:32-33 | anything but a list of objects fails with `NotAListOfServices` |
| `Snapshot.LoadReportsFirstMissing` | main.py:34-38 | a missing key is reported for the first offending record, naming the first key it lacks; all earlier records were complete |
| `Snapshot.FirstMissingIsFirst` | main.py:34-38 | the reported record is the first incomplete one, and the reported key is its first missing key |
| `Snapshot.LoadSucceedsIff` | main.py:32-39 | loading succeeds exactly on a list of objects that all carry the three keys |
| `Snapshot.LoadSortsStably` | main.py:39 | a loaded snapshot carries the saved keys, is a permutation of the file's records, is sorted by display name, and is stable |
| `Snapshot.Cut` | main.py:95 | every record is projected onto the saved keys, in order |
| `Snapshot.ListServices` | main.py:95-97 | the live list has exactly the saved keys in every record, is sorted by display name, and is a permutation of the projected records |
| `Snapshot.Dumped` | main.py:26-27 | a written snapshot parses back as a list of objects holding the same records |
| `Snapshot.SaveLoadRoundTrip` | main.py:24-40 | loading a saved live list gives back that list |
| `StrictDiff.FieldDiffOf` | main.py:109-110 | the entry's keys are exactly the saved fields that differ, each with its old and new value; the entry is empty exactly when the projections agree |
| `StrictDiff.StrictEntries` | main.py:105-111 | there are at most as many entries as new records |
| `StrictDiff.ConfigurationsDifference` | main.py:99-112 | differing counts fail with both counts; with equal counts it succeeds exactly when every new name is an old name; success returns `StrictEntries`; otherwise it reports the first unknown name |
| `StrictDiff.DiffAgainstIndex` | main.py:105-112 | the loop succeeds exactly when every name is in the index, and then yields `StrictEntries`; otherwise it stops at the first unknown name |
| `StrictDiff.StrictEntriesSnoc` | main.py:108-111 | one more new record appends its field diff when it differs from its old record, and nothing otherwise |
| `StrictDiff.IndexHasNames` | main.py:100 | a name is in the old-name index exactly when some old record carries it |
| `StrictDiff.StrictEntriesAppend` | main.py:105-111 | entries follow the order of the new list: the diff of a concatenation is the concatenation of the diffs |
| `StrictDiff.StrictEntriesEmptyIff` | main.py:108 | no entries exactly when every new record equals its old record |
| `StrictDiff.StrictEntriesAreFieldDiffs` | main.py:108-111 | every entry is the field diff of a differing pair of records, and `Name` is never one of its keys |
| `StrictDiff.StrictEntryOrigin` | main.py:108-111 | every entry comes from a new record that differs from its old record |
| `StrictDiff.StrictSelfDiffIsEmpty` | main.py:99-112 | a list with unique names compared with itself yields no entries |
| `TolerantDiff.RenamePairs` | main.py:122-126 | each entry goes to its normalized name, with a copy of its record whose `Name` is that normalized name |
| `TolerantDiff.RenamePairsKeys` | main.py:122-126 | the new keys are the normalized old keys |
| `TolerantDiff.RenamePairsRecords` | main.py:124-125 | each renamed record carries its new key as `Name` and keeps the saved keys |
| `TolerantDiff.Rekeyed` | main.py:119-128 | the rekeyed dict has unique keys, keys equal to names, and exactly the normalized names; saved-key facts carry over |
| `TolerantDiff.RekeyByNormalizedName` | main.py:119-128 | the rekeying loop computes `Rekeyed` |
| `TolerantDiff.RekeyedLastWins` | main.py:126 | after a collision, a normalized name holds the renamed copy of the last entry that normalizes to it |
| `TolerantDiff.RekeyedOnlyRenames` | main.py:124-125 | every rekeyed entry is some input record with only its `Name` replaced |
| `TolerantDiff.Side` | main.py:116-128 | a side's dict has unique keys equal to names; its keys are the names, normalized when suffixes are ignored |
| `TolerantDiff.Overlay` | main.py:141-143 | the overlay has the live record's keys; an unchanged field keeps its live value, and a changed field becomes `"<backup> -> <live>"` |
| `TolerantDiff.OverlayUnchangedIff` | main.py:141-143 | the overlay equals the live record exactly when no live field differs from the backup |
| `TolerantDiff.Counterpart` | main.py:137 | the matched backup record carries the saved keys and the live record's name |
| `TolerantDiff.DriftEntry` | main.py:141-143 | a changed entry has exactly the saved keys, keeps the live `Name`, shows a changed `DisplayName` and shows the start-type move as `"old -> new"` |
| `TolerantDiff.Drift` | main.py:133-144 | there are at most as many changed entries as live services |
| `TolerantDiff.StartTypeDrifted` | main.py:134-140 | a live service is reported exactly when its name is in the backup and its `StartType` differs from the backup's; the whole-record test of main.py:138 never decides on its own |
| `TolerantDiff.DriftSnoc` | main.py:133-144 | one more live service appends its entry exactly when it drifted |
| `TolerantDiff.DriftStep` | main.py:134-140 | the lookup and the two tests of one iteration decide whether the service drifted, and the entry is its overlay |
| `TolerantDiff.ChangedServices` | main.py:133-144 | the changed-services loop computes `Drift` |
| `TolerantDiff.DriftReportsEvery` | main.py:133-144 | every matched live service that differs from its backup record in `StartType` is reported |
| `TolerantDiff.DriftReportsOnly` | main.py:133-144 | every reported entry is the overlay of a matched live service whose `StartType` differs; a service that differs only in `DisplayName` is not reported |
| `TolerantDiff.DriftEmptyWhenMatchedEqual` | main.py:138 | nothing is reported when every matched live record equals its backup record |
| `TolerantDiff.Missing` | main.py:147-148 | the reported services are stored in the dict and carry names |
| `TolerantDiff.MissingNames` | main.py:147-153 | the reported names are exactly the dict's keys that the other dict lacks |
| `TolerantDiff.MissingEmptyIff` | main.py:147-153 | nothing is reported exactly when every key is also in the other dict |
| `TolerantDiff.Difference` | main.py:116-153 | the three lists of the report: at most one changed entry per live service, deleted names exactly the backup names not live, new names exactly the live names not in the backup |
| `TolerantDiff.DifferencePartition` | main.py:133-153 | deleted holds exactly the backup names not live, and added exactly the live names not in the backup; the two are disjoint; every name on either side is matched or reported |
| `TolerantDiff.DifferenceWithItselfIsEmpty` | main.py:114-156 | a snapshot compared with itself, with or without `ignore_suffix`, reports nothing |
| `TolerantDiff.BackupDifference` | main.py:114-153 | a load error ends the comparison; otherwise the report is the `Difference` of the loaded snapshot and the projected live list |
| `TolerantDiff.Service` | main.py:95 | a live record: exactly the three saved keys with the given values |
| `TolerantDiff.OverlayStartType` | main.py:141-143 | two records that differ only in `StartType` overlay to `"old -> new"` in that field alone |
| `TolerantDiff.DriftAndNewExample` | main.py:133-153 | backup `A` (Automatic) against live `A` (Disabled) and `B` reports `A` as `Automatic -> Disabled`, nothing deleted, and `B` as new |
| `TolerantDiff.SuffixExample` | main.py:119-153 | with `ignore_suffix`, `Sync_ab12` and `Sync_cd34` match as `Sync`; without it they are one deleted and one new service |

## Left out

- `current_codepage`, the enumeration half of `list_services` and
  `restore_services` (main.py:19-22, 63-94, 42-53). These run `chcp` and
  `pwsh` and decode their output. The live records enter the model as a
  parameter that carries the three saved keys.
- JSON text, files and printing (`json.load`, `json.dump`, `open`,
  `print`). Loading starts from a parsed `Json` value, and the tolerant
  diff returns its three lists instead of printing them.
- The command line, elevation through `pyuac`, the timestamped file name,
  the file-existence check and `sys.exit`.
- Snapshot.Json: JSON object members are strings. A file whose members are
  numbers, booleans, `null`, lists or nested objects is not modelled, and
  neither is the comparison Python would attempt between such values while
  sorting or diffing.
- The order of keys inside a dict value. Records and strict-diff entries
  are maps, so neither the key order of a printed record nor the
  `_only_save_rows` order in which main.py:109-110 builds a strict-diff
  entry exists in the model.
- StrictDiff.ConfigurationsDifference: requires every record on both sides
  to carry the three saved keys. Python fails with `KeyError` on an old
  record without `Name` at main.py:100, and on a new record without `Name`
  at main.py:106. A record without `DisplayName` or `StartType` fails only
  when it differs from its counterpart (main.py:108-110); the requires also
  excludes inputs like `olds = news = [{"Name": "a"}]`, for which Python
  returns `[]`. None of these cases is modelled.
- TolerantDiff.BackupDifference: requires the raw live records to carry the
  three saved keys. The enumeration at main.py:66 selects
  `Name,DisplayName,Status,StartType` for every service, so each record it
  emits has all three.
- TolerantDiff.Overlay: requires the live record to carry exactly the three
  saved keys. Every live record does, because it comes from the
  `list_services` projection. Python compares each live key with the
  backup record, which then has that key as well.
- Duplicate names are not rejected on load; the later record wins in every
  name index.
- A strict-diff entry can be an empty map when two records differ only in
  keys outside the saved three.
