/**
 * The snapshot store: the `inventories` table, one row per (character,
 * timestamp, item name) with its quantity, held as a map from (character,
 * timestamp) to that snapshot's item map.  A key is present exactly when it
 * has at least one row, which is what the program's `SELECT COUNT(*)` probe
 * asks.
 */
module Inventory {
  import opened Wrappers
  import opened Records
  import opened Scanner
  import opened Stamps
  import TextOrder

  datatype SnapshotKey = SnapshotKey(character: string, timestamp: string)

  type Snapshots = map<SnapshotKey, map<string, int>>

  /** A row of the `inventories` table. */
  datatype Row = Row(character: string, timestamp: string, itemName: string, quantity: int)

  /** The table as SQL sees it: one row per stored (key, item name). */
  ghost function Rows(s: Snapshots): set<Row>
  {
    set k, n | k in s && n in s[k] :: Row(k.character, k.timestamp, n, s[k][n])
  }

  /** Every stored key has rows: a snapshot with no items is never stored. */
  ghost predicate RowsBacked(s: Snapshots)
  {
    forall k :: k in s ==> s[k] != map[]
  }

  /** `t` keeps every snapshot of `s` as it was: stored snapshots are never changed. */
  ghost predicate Extends(t: Snapshots, s: Snapshots)
  {
    forall k :: k in s ==> k in t && t[k] == s[k]
  }

  function ItemsOf(s: Snapshots, key: SnapshotKey): map<string, int>
  {
    if key in s then s[key] else map[]
  }

  /**
   * `INSERT OR REPLACE` of one row per entry of `items` under `key`; an empty
   * `items` inserts no row, so the key stays as it was.
   */
  function Insert(s: Snapshots, key: SnapshotKey, items: map<string, int>): Snapshots
  {
    if items == map[] then s else s[key := ItemsOf(s, key) + items]
  }

  /** Inserting one more row is the loop's step. */
  lemma InsertStep(s: Snapshots, key: SnapshotKey, m: map<string, int>, n: string, v: int)
    ensures Insert(s, key, m[n := v]) == Insert(s, key, m)[key := ItemsOf(Insert(s, key, m), key)[n := v]]
  {
    var base := ItemsOf(s, key);
    if m == map[] {
      assert m[n := v] == map[n := v];
      assert n in m[n := v];
      assert base + map[n := v] == base[n := v];
    } else {
      assert n in m[n := v];
      assert ItemsOf(Insert(s, key, m), key) == base + m;
      assert (base + m)[n := v] == base + m[n := v];
    }
  }

  /** What reading one export file does to the store (the body of `load_json_files`'s loop). */
  function IngestRecord(s: Snapshots, content: FileContent): Snapshots
  {
    match content
    case Malformed => s
    case Decoded(r) =>
      if IsPresent(r.character) && IsPresent(r.timestamp) then
        var key := SnapshotKey(r.character.value, r.timestamp.value);
        if key in s then s else Insert(s, key, Merged(r.items))
      else s
  }

  /** A folder entry: read it only when its name marks it as an export. */
  function IngestFile(s: Snapshots, f: FileEntry): Snapshots
  {
    if IsExportName(f.name) then IngestRecord(s, f.content) else s
  }

  /** `load_json_files`: every entry of the folder, in listing order. */
  function IngestFolder(s: Snapshots, files: seq<FileEntry>): Snapshots
  {
    if files == [] then s else IngestFile(IngestFolder(s, files[..|files| - 1]), files[|files| - 1])
  }

  // ---- Ingestion never changes a stored snapshot and is idempotent ----

  lemma IngestFileExtends(s: Snapshots, f: FileEntry)
    ensures Extends(IngestFile(s, f), s)
  {}

  lemma IngestFileKeepsRowsBacked(s: Snapshots, f: FileEntry)
    requires RowsBacked(s)
    ensures RowsBacked(IngestFile(s, f))
  {}

  /** After a file is read, reading it again changes nothing. */
  lemma IngestFileSettles(s: Snapshots, f: FileEntry)
    ensures IngestFile(IngestFile(s, f), f) == IngestFile(s, f)
  {}

  /** A file that would change nothing still changes nothing once more snapshots are stored. */
  lemma SettledInExtension(s: Snapshots, t: Snapshots, f: FileEntry)
    requires IngestFile(s, f) == s && Extends(t, s)
    ensures IngestFile(t, f) == t
  {}

  /** Reading a folder keeps every snapshot already stored. */
  lemma {:induction false} IngestFolderExtends(s: Snapshots, files: seq<FileEntry>)
    ensures Extends(IngestFolder(s, files), s)
  {
    if files != [] {
      var front := files[..|files| - 1];
      IngestFolderExtends(s, front);
      IngestFileExtends(IngestFolder(s, front), files[|files| - 1]);
    }
  }

  lemma {:induction false} IngestFolderKeepsRowsBacked(s: Snapshots, files: seq<FileEntry>)
    requires RowsBacked(s)
    ensures RowsBacked(IngestFolder(s, files))
  {
    if files != [] {
      var front := files[..|files| - 1];
      IngestFolderKeepsRowsBacked(s, front);
      IngestFileKeepsRowsBacked(IngestFolder(s, front), files[|files| - 1]);
    }
  }

  /** After a folder is read, each of its files would change nothing. */
  lemma {:induction false} IngestFolderSettles(s: Snapshots, files: seq<FileEntry>, i: nat)
    requires i < |files|
    ensures IngestFile(IngestFolder(s, files), files[i]) == IngestFolder(s, files)
  {
    var k := |files| - 1;
    var front := files[..k];
    var t := IngestFolder(s, front);
    if i == k {
      IngestFileSettles(t, files[k]);
    } else {
      assert front[i] == files[i];
      IngestFolderSettles(s, front, i);
      IngestFileExtends(t, files[k]);
      SettledInExtension(t, IngestFile(t, files[k]), files[i]);
    }
  }

  /** A folder none of whose files would change `t` leaves `t` as it is. */
  lemma {:induction false} SettledFolderUnchanged(t: Snapshots, files: seq<FileEntry>)
    requires forall i :: 0 <= i < |files| ==> IngestFile(t, files[i]) == t
    ensures IngestFolder(t, files) == t
  {
    if files != [] {
      var front := files[..|files| - 1];
      forall i | 0 <= i < |front| ensures IngestFile(t, front[i]) == t {
        assert front[i] == files[i];
      }
      SettledFolderUnchanged(t, front);
    }
  }

  /** Rescanning a folder that was just read leaves the store unchanged. */
  lemma IngestFolderIdempotent(s: Snapshots, files: seq<FileEntry>)
    ensures IngestFolder(IngestFolder(s, files), files) == IngestFolder(s, files)
  {
    var t := IngestFolder(s, files);
    forall i | 0 <= i < |files| ensures IngestFile(t, files[i]) == t {
      IngestFolderSettles(s, files, i);
    }
    SettledFolderUnchanged(t, files);
  }

  // ---- The latest-only check ----

  datatype LatestOutcome =
    | NewSnapshot(timestamp: string)  // the timestamp `load_latest_if_new` returns
    | NothingNew                      // it returns None
    | Undecodable                     // `json.load` raises: the latest file is not JSON

  /** What `load_latest_if_new` returns and the store it leaves. */
  function LatestEffect(s: Snapshots, folder: seq<FileEntry>, character: string): (LatestOutcome, Snapshots)
  {
    var latest := LatestOf(CandidateDates(folder, character));
    if latest.None? then (NothingNew, s)
    else match folder[latest.value].content
      case Malformed => (Undecodable, s)
      case Decoded(r) =>
        if r.timestamp.None? then (NothingNew, s)
        else
          var key := SnapshotKey(character, r.timestamp.value);
          if key in s then (NothingNew, s)
          else (NewSnapshot(r.timestamp.value), Insert(s, key, Merged(r.items)))
  }

  /**
   * Asking again right after a new snapshot was reported: nothing new,
   * unless the latest export had no named item, in which case nothing was
   * stored and the same timestamp is reported again.
   */
  lemma LatestEffectRepeated(s: Snapshots, folder: seq<FileEntry>, character: string)
    requires LatestEffect(s, folder, character).0.NewSnapshot?
    ensures var (first, t) := LatestEffect(s, folder, character);
            LatestEffect(t, folder, character) == (if t == s then first else NothingNew, t)
  {
    var latest := LatestOf(CandidateDates(folder, character));
    var r := folder[latest.value].content.record;
    var key := SnapshotKey(character, r.timestamp.value);
    if Merged(r.items) != map[] {
      assert key in Insert(s, key, Merged(r.items));
      assert key !in s;
    }
  }

  class Store {
    var snapshots: Snapshots

    ghost predicate Valid()
      reads this
    {
      RowsBacked(snapshots)
    }

    /** `init_db` on a new database file: an empty table. */
    constructor ()
      ensures Valid() && snapshots == map[]
    {
      snapshots := map[];
    }

    /** `get_items_at_timestamp`: the item rows stored under the key, none for a missing key. */
    function ItemsAt(character: string, timestamp: string): (r: map<string, int>)
      reads this
      ensures forall n, q :: Row(character, timestamp, n, q) in Rows(snapshots) <==> n in r && r[n] == q
    {
      var key := SnapshotKey(character, timestamp);
      var r := if key in snapshots then snapshots[key] else map[];
      assert forall n, q :: Row(character, timestamp, n, q) in Rows(snapshots) ==> n in r && r[n] == q by {
        forall n, q | Row(character, timestamp, n, q) in Rows(snapshots) ensures n in r && r[n] == q {
          var k, m :| k in snapshots && m in snapshots[k] &&
                      Row(k.character, k.timestamp, m, snapshots[k][m]) == Row(character, timestamp, n, q);
          assert k == key;
        }
      }
      r
    }

    /** The `SELECT COUNT(*) ... > 0` probe: the key has at least one item row. */
    function Exists(character: string, timestamp: string): (r: bool)
      requires Valid()
      reads this
      ensures r <==> ItemsAt(character, timestamp) != map[]
    {
      SnapshotKey(character, timestamp) in snapshots
    }

    /** `get_characters`: every character with a snapshot, once each, ascending. */
    function Characters(): (r: seq<string>)
      reads this
      ensures forall i, j :: 0 <= i < j < |r| ==> TextOrder.Below(r[i], r[j])
      ensures forall c :: c in r <==> exists k :: k in snapshots && k.character == c
    {
      TextOrder.Ascending(set k | k in snapshots :: k.character)
    }

    /** `get_timestamps_for_char`: every timestamp stored for `character`, once each, descending. */
    function Timestamps(character: string): (r: seq<string>)
      reads this
      ensures forall i, j :: 0 <= i < j < |r| ==> TextOrder.Below(r[j], r[i])
      ensures forall t :: t in r <==> SnapshotKey(character, t) in snapshots
    {
      var ts := set k | k in snapshots && k.character == character :: k.timestamp;
      assert forall t :: t in ts <==> SnapshotKey(character, t) in snapshots by {
        forall t | SnapshotKey(character, t) in snapshots ensures t in ts {
          var k := SnapshotKey(character, t);
          assert k in snapshots && k.character == character;
        }
      }
      TextOrder.Descending(ts)
    }

    /** The insert loop: one `INSERT OR REPLACE` per merged entry, then `commit`. */
    method InsertRows(key: SnapshotKey, items: map<string, int>)
      requires Valid()
      modifies this
      ensures Valid()
      ensures snapshots == Insert(old(snapshots), key, items)
    {
      var remaining := items.Keys;
      while remaining != {}
        invariant remaining <= items.Keys
        invariant Valid()
        invariant snapshots == Insert(old(snapshots), key, map n | n in items.Keys - remaining :: items[n])
        decreases remaining
      {
        var n :| n in remaining;
        ghost var done := map m | m in items.Keys - remaining :: items[m];
        ghost var done' := map m | m in items.Keys - (remaining - {n}) :: items[m];
        assert done' == done[n := items[n]];
        InsertStep(old(snapshots), key, done, n, items[n]);
        snapshots := snapshots[key := ItemsOf(snapshots, key)[n := items[n]]];
        remaining := remaining - {n};
      }
      assert items.Keys - remaining == items.Keys;
      assert (map n | n in items.Keys :: items[n]) == items;
    }

    /**
     * One export file of a full rescan: skipped when it is not JSON, when it
     * lacks `Character` or `Timestamp`, or when its key is already stored;
     * otherwise its merged items are stored under its key.
     */
    method Ingest(content: FileContent)
      requires Valid()
      modifies this
      ensures Valid()
      ensures snapshots == IngestRecord(old(snapshots), content)
      ensures content.Malformed? ==> snapshots == old(snapshots)
      ensures content.Decoded? && !(IsPresent(content.record.character) && IsPresent(content.record.timestamp))
              ==> snapshots == old(snapshots)
      ensures content.Decoded? && IsPresent(content.record.character) && IsPresent(content.record.timestamp) ==>
                var key := SnapshotKey(content.record.character.value, content.record.timestamp.value);
                if key in old(snapshots) then snapshots == old(snapshots)
                else && ItemsAt(key.character, key.timestamp) == Merged(content.record.items)
                     && forall k :: k != key ==> ItemsOf(snapshots, k) == ItemsOf(old(snapshots), k)
    {
      match content
      case Malformed =>
      case Decoded(r) =>
        if IsPresent(r.character) && IsPresent(r.timestamp) {
          var key := SnapshotKey(r.character.value, r.timestamp.value);
          if !Exists(key.character, key.timestamp) {
            var merged := MergeItems(r.items);
            InsertRows(key, merged);
          }
        }
    }

    /** `load_json_files`: every export in the folder, in listing order. */
    method LoadJsonFiles(folder: seq<FileEntry>)
      requires Valid()
      modifies this
      ensures Valid()
      ensures snapshots == IngestFolder(old(snapshots), folder)
      ensures Extends(snapshots, old(snapshots))
    {
      for i := 0 to |folder|
        invariant Valid()
        invariant snapshots == IngestFolder(old(snapshots), folder[..i])
      {
        assert folder[..i + 1][..i] == folder[..i];
        var f := folder[i];
        if IsExportName(f.name) {
          Ingest(f.content);
        }
      }
      assert folder[..|folder|] == folder;
      IngestFolderExtends(old(snapshots), folder);
    }

    /**
     * `load_latest_if_new`: read `character`'s latest export and store it
     * when its timestamp is not stored yet for `character` (the record's own
     * `Character` is not consulted).
     */
    method LoadLatestIfNew(folder: seq<FileEntry>, character: string) returns (outcome: LatestOutcome)
      requires Valid()
      modifies this
      ensures Valid()
      ensures (outcome, snapshots) == LatestEffect(old(snapshots), folder, character)
      ensures outcome.NewSnapshot? <==>
                var latest := LatestOf(CandidateDates(folder, character));
                && latest.Some? && folder[latest.value].content.Decoded?
                && var ts := folder[latest.value].content.record.timestamp;
                   ts.Some? && SnapshotKey(character, ts.value) !in old(snapshots)
      ensures outcome.NewSnapshot? ==>
                var r := folder[LatestOf(CandidateDates(folder, character)).value].content.record;
                && r.timestamp == Some(outcome.timestamp)
                && ItemsAt(character, outcome.timestamp) == Merged(r.items)
                && forall k :: k != SnapshotKey(character, outcome.timestamp) ==>
                     ItemsOf(snapshots, k) == ItemsOf(old(snapshots), k)
      ensures !outcome.NewSnapshot? ==> snapshots == old(snapshots)
    {
      var latest := GetLatestFileForChar(folder, character);
      if latest.None? {
        return NothingNew;
      }
      match folder[latest.value].content
      case Malformed =>
        return Undecodable;
      case Decoded(r) =>
        if r.timestamp.None? {
          return NothingNew;
        }
        var key := SnapshotKey(character, r.timestamp.value);
        if Exists(key.character, key.timestamp) {
          return NothingNew;
        }
        var merged := MergeItems(r.items);
        InsertRows(key, merged);
        return NewSnapshot(r.timestamp.value);
    }
  }
}
