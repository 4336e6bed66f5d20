# Inventory comparator: a verified model of its core

The program, `ItemCompare.py`, reads the inventory exports that the game writes
into its reports folder. Each export is a JSON file named
`<character>_items_<YYYY-MM-DD-HH-MM-SS>Z.json` holding `Character`,
`Timestamp` and `Items`. The program keeps one snapshot per (character,
timestamp) in an SQLite table of (character, timestamp, item name, quantity).
It then shows how each item's quantity changed between a reference snapshot and
a later comparison snapshot. The comparison snapshot can be "Latest": the newest
export on disk, which is stored first if it is new.

This project models that core in Dafny and proves what it promises:

- `Stamps`: the two date parsers (`parse_timestamp` and `parse_filename_date`)
  over six-field stamps with calendar validity. It proves that the fixed-width
  text of a valid stamp parses back to that stamp, and that the text order SQLite
  sorts timestamps by is their chronological order. It also holds the
  "first of the latest" selection, shared by the folder scan and by Python's `max`
  with a key.
- `TextOrder`: SQLite's default (binary) order on text, and the sorted,
  duplicate-free listing of a set that `SELECT DISTINCT ... ORDER BY` returns.
- `Records`: decoded exports, and the loop that merges an export's entries into one
  total per item name.
- `Scanner`: which folder entries are exports, and the loop of
  `get_latest_file_for_char`.
- `Inventory`: the table as a map from (character, timestamp) to that snapshot's
  items. It is held in a `Store` class whose methods are the ingestion of
  `load_json_files` and `load_latest_if_new`, and whose functions are the
  three queries. Ingestion never alters a stored snapshot, and reading the same
  folder twice changes nothing.
- `Comparison`:
  - the item difference computed in `compare`;
  - the list of comparison timestamps built by `update_comp_timestamps`;
  - the "Latest" resolution with its fallback to the newest cached timestamp;
  - `compare` itself up to the computed changes.

Python's exceptions on these paths are modelled as outcomes:
- a `TypeError` when a timestamp that does not parse is compared;
- a `JSONDecodeError` from the unguarded `json.load` in `load_latest_if_new`.

The guarantees are the verified contracts of the members listed below.

## Model

| member | source | states |
|---|---|---|
| Stamps.BeforeTotal | ItemCompare.py:84 | two stamps are equal or one is strictly earlier, as `datetime` comparison is |
| Stamps.BeforeTransitive | ItemCompare.py:84 | strictly earlier is transitive |
| Stamps.BeforeIrreflexive | ItemCompare.py:84 | no stamp is strictly earlier than itself |
| Stamps.ParseTimestamp | ItemCompare.py:26-30 | a timestamp that parses names a real date-time: year 1 to 9999, a month, a day that month has, hour, minute and second in range |
| Stamps.TextFieldsAt | ItemCompare.py:28 | in a valid stamp's text each field position holds digits that read back as that field, and each separator is where the format puts it |
| Stamps.FieldsOfText | ItemCompare.py:28 | a valid stamp written in the fixed-width layout has digits and separators where the format wants them, and its six fields read back as the stamp |
| Stamps.TextOfFields | ItemCompare.py:28 | any string of the format's shape is exactly the layout of the fields it holds |
| Stamps.NumberOfDigits | ItemCompare.py:28 | a number below 10^w written in w zero-padded digits is all digits and reads back as itself |
| Stamps.DigitsOfNumber | ItemCompare.py:28 | a digit string is the zero-padded writing of the number it denotes |
| Stamps.ParseTimestampOfText | ItemCompare.py:26-30 | every valid date-time written as "YYYY-MM-DD HH:MM:SSZ" parses back to itself |
| Stamps.TextOfParseTimestamp | ItemCompare.py:26-30 | a string that parses is the canonical text of the stamp it parses to |
| Stamps.ParseTimestampInjective | ItemCompare.py:26-30 | two strings that parse to the same stamp are the same string |
| Stamps.FindStamp | ItemCompare.py:33 | the leftmost position at or after the start where a "DDDD-DD-DD-DD-DD-DDZ" window begins; none begins before it, and with no result none begins anywhere |
| Stamps.ParseFilenameDate | ItemCompare.py:32-40 | a date found in a file name is a valid date-time |
| Stamps.ParseFilenameDateOfName | ItemCompare.py:32-40 | a name made of a digit-free prefix, the dashed text of a valid stamp and any suffix is dated by exactly that stamp |
| Stamps.DigitsBelow | ItemCompare.py:75 | zero-padded numbers of equal width sort as text exactly as the numbers sort |
| Stamps.TextOrderIsChronological | ItemCompare.py:75 | for two timestamps that parse, text order (the store's `ORDER BY timestamp`) holds iff the first is chronologically earlier |
| Stamps.LatestOfStep | ItemCompare.py:84-86 | a further date takes over iff it is present and strictly later than the latest so far |
| Stamps.LatestOf | ItemCompare.py:84-86 | the chosen position, if any, holds a date |
| Stamps.LatestOfNone | ItemCompare.py:84-86 | there is no choice exactly when no position holds a date |
| Stamps.LatestOfGreatest | ItemCompare.py:84-86 | no date is later than the chosen one |
| Stamps.LatestOfFirstOfEqual | ItemCompare.py:84 | every date before the chosen position is strictly earlier, so among equal dates the first listed wins |
| TextOrder.Ascending | ItemCompare.py:70 | lists exactly the members of the set, each once, in strictly ascending text order |
| TextOrder.Descending | ItemCompare.py:75 | lists exactly the members of the set, each once, in strictly descending text order |
| Records.MergedConcat | ItemCompare.py:56-61 | merging a concatenation: the names are the union of both parts' names and the totals add |
| Records.QuantityOfAbsent | ItemCompare.py:60-61 | a name that no entry carries totals 0 |
| Records.UnnamedEntryIgnored | ItemCompare.py:58-60 | an entry whose `Name` is missing or empty changes the merge nowhere, wherever it stands |
| Records.MergedSnoc | ItemCompare.py:61 | one more entry adds its `StackSize` (1 when missing) to its name's total, or changes nothing when unnamed |
| Records.MergeItems | ItemCompare.py:56-61 | the merge loop yields the reference merge: for each non-empty name, the total of the `StackSize` (1 when missing) of the entries carrying it |
| Records.MergedKeys | ItemCompare.py:58-61 | a name is merged iff some entry carries it and it is not empty |
| Records.MergeExample | ItemCompare.py:56-61 | stacks of 3 and 5 of one name merge to 8, a missing `StackSize` counts 1, unnamed and empty-named entries vanish |
| Scanner.GetLatestFileForChar | ItemCompare.py:78-87 | the scan picks the first of the latest candidate dates |
| Scanner.LatestFileNone | ItemCompare.py:78-87 | no file is chosen iff no file has a `<character>_items_...json` name holding a valid date |
| Scanner.LatestFileGreatest | ItemCompare.py:84-86 | the chosen file has a date and no candidate's date is later |
| Scanner.LatestFileFirstOfEqual | ItemCompare.py:84 | every candidate listed before the chosen file is strictly earlier: with equal dates the first listed is kept |
| Inventory.InsertStep | ItemCompare.py:62-63 | storing one more row under a key is the update of that row in the snapshot |
| Inventory.IngestFileExtends | ItemCompare.py:53-55 | reading a file never changes or removes a stored snapshot |
| Inventory.IngestFileKeepsRowsBacked | ItemCompare.py:62-63 | no key is ever stored without items |
| Inventory.IngestFileSettles | ItemCompare.py:53-55 | reading the same file a second time changes nothing |
| Inventory.SettledInExtension | ItemCompare.py:53-55 | a file that changes nothing still changes nothing once more snapshots are stored |
| Inventory.IngestFolderExtends | ItemCompare.py:42-66 | a rescan keeps every snapshot stored before it |
| Inventory.IngestFolderKeepsRowsBacked | ItemCompare.py:42-66 | a rescan stores no key without items |
| Inventory.IngestFolderSettles | ItemCompare.py:42-66 | after a folder is read, each of its files would change nothing |
| Inventory.SettledFolderUnchanged | ItemCompare.py:44-45 | a folder none of whose files changes the store leaves it as it is |
| Inventory.IngestFolderIdempotent | ItemCompare.py:42-66 | reading a folder a second time leaves the store unchanged |
| Inventory.LatestEffectRepeated | ItemCompare.py:89-108 | asking for the latest export again right after it was stored reports nothing new; if it stored nothing (no named item), it reports the same timestamp again |
| Inventory.Store.constructor | ItemCompare.py:11-24 | a new database holds no snapshot |
| Inventory.Store.ItemsAt | ItemCompare.py:110-113 | the returned map holds a name with a quantity iff the table has that row for the character and timestamp; so the map is empty for a missing key |
| Inventory.Store.Exists | ItemCompare.py:53-54 | the row-count probe succeeds iff the snapshot has at least one item |
| Inventory.Store.Characters | ItemCompare.py:68-71 | every character with a snapshot, each once, ascending |
| Inventory.Store.Timestamps | ItemCompare.py:73-76 | every timestamp stored for the character, each once, strictly descending |
| Inventory.Store.InsertRows | ItemCompare.py:62-64 | the insert loop stores the items under the key and touches nothing else; an empty item map stores nothing |
| Inventory.Store.Ingest | ItemCompare.py:47-64 | a malformed file, or a record lacking `Character` or `Timestamp` (missing or empty), or one whose key is stored, leaves the store unchanged; otherwise the key then holds the merged items and every other key is unchanged |
| Inventory.Store.LoadJsonFiles | ItemCompare.py:42-66 | reads every export of the folder in listing order and keeps every snapshot stored before |
| Inventory.Store.LoadLatestIfNew | ItemCompare.py:89-108 | reports a new timestamp iff the latest export decodes, has a `Timestamp` and that key is not stored for the character; then the key holds its merged items and nothing else changes; otherwise the store is unchanged |
| Comparison.Diff | ItemCompare.py:260-267 | a name is in `changes` iff its quantities differ (a missing item counting 0), and then it maps to comparison minus reference |
| Comparison.ChangesAntisymmetric | ItemCompare.py:260-267 | swapping reference and comparison keeps the same names and negates every delta |
| Comparison.ChangesCompose | ItemCompare.py:263-265 | the change from a to c is the change from a to b plus the change from b to c, name by name |
| Comparison.ChangesExample | ItemCompare.py:260-267 | an unchanged item is left out, a lost one is negative, a new one positive |
| Comparison.Later | ItemCompare.py:226 | keeps exactly the timestamps strictly later than the reference, as many times as they occur |
| Comparison.InsertLatestFirst | ItemCompare.py:227 | inserting into a latest-first list keeps it latest first and adds exactly that element |
| Comparison.SortLatestFirst | ItemCompare.py:227 | the sort is a permutation and latest first |
| Comparison.CompCandidates | ItemCompare.py:220-228 | nothing happens without a character and a reference; `TypeError` iff some timestamp compared does not parse; otherwise "Latest" followed by exactly the cached timestamps later than the reference, latest first |
| Comparison.LatestCached | ItemCompare.py:246-250 | none iff the cache is empty; `TypeError` iff two or more are cached and one does not parse; otherwise a cached timestamp that, when there are several, none is later than |
| Comparison.LatestCachedIsFirstListed | ItemCompare.py:246-250 | for a cache in the store's descending order whose timestamps all parse, the fallback is its first entry |
| Comparison.Compare | ItemCompare.py:233-267 | the result and the cache afterwards are determined exactly. A choice other than "Latest" changes neither the store nor the cache; it is not compared when the reference or the choice is empty, and otherwise it is the difference of the two stored snapshots. For "Latest" the store changes as `load_latest_if_new` does, and then: an undecodable export aborts. A new non-empty timestamp refreshes the cache for a non-empty character; it aborts when the recomputed comparison list raises `TypeError`, is not compared without a reference, and otherwise is compared with the reference. Anything else falls back to the cache: an empty cache gives no comparison, a `max` that raises aborts, and the newest cached timestamp is compared whenever it and the reference are non-empty |

## Left out

- JSON decoding, `open`, `os.listdir` and `os.path.join`:
  - a folder is the sequence of its entries in listing order;
  - an entry's content is either a decoded record or "not JSON";
  - the chosen latest file is returned as its position, not as a path.
- JSON values of the wrong type are not modelled; decoded fields are typed. Examples are a non-string `Name`, a non-numeric or null `StackSize`, a non-list `Items`, or a top-level value that is not an object. A record that does not decode is the only failure that is modelled.
- I/O and database errors (missing files, permissions, locked database) are left out, because the model has no file system or connection.
- Inventory.Store.LoadJsonFiles: `load_json_files` catches only `JSONDecodeError`. A file whose bytes are not valid text raises `UnicodeDecodeError` and ends the whole scan. The model cannot tell such a file from malformed JSON, so it skips it as `Malformed` and the scan goes on.
- SQLite mechanics are not modelled: the connection, cursors, `commit`, and the table's column types. `INSERT OR REPLACE` is a map update, and within one snapshot it never collides, because merged names are unique.
- Quantities are unbounded integers. SQLite's 64-bit `INTEGER` limit is not modelled.
- Inventory.Store.LoadLatestIfNew: when the latest export has no `Timestamp`, the program probes with NULL (which matches no row), stores its rows with a NULL timestamp and returns None. The model reports nothing new and stores nothing, because a NULL timestamp has no place in the (character, timestamp) keyed map.
- Stamps.ParseTimestamp: it accepts only the fixed-width form "YYYY-MM-DD HH:MM:SSZ" with ASCII digits. Python's `strptime` also accepts single-digit month, day, hour, minute and second, a space-padded day (" 1"), other Unicode decimal digits, any run of whitespace for the space, and a lower-case "z". The model treats such strings as not parsing.
- Stamps.ParseFilenameDate: `\d` is read as an ASCII digit. Python's regular expressions also match other Unicode decimal digits.
- All Tkinter code is left out: the widgets, the Treeview, `browse_folder`, and `load_data` with its restoring of earlier selections. `update_ref_timestamps` appears only as the cache refresh and reference reselection inside `Compare`. The combobox values that `update_comp_timestamps` sets are the returned candidate list.
- Comparison.Compare: it returns the comparison timestamp only inside a result that was compared, and the window's `prev_char`, `prev_ref_ts` and `comp_ts` fields are not modelled.
- Everything in `compare` after line 269 (the display of the time difference and of the changes) is not part of this model.
