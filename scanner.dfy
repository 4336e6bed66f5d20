/**
 * Which files in the export folder the program looks at, and how
 * `get_latest_file_for_char` picks a character's most recent export by the
 * date embedded in its name.  The folder is the sequence of its entries in
 * listing order; a chosen file is given by its position in that sequence.
 */
module Scanner {
  import opened Wrappers
  import opened Stamps
  import opened Records

  predicate StartsWith(s: string, p: string)
  {
    |p| <= |s| && s[..|p|] == p
  }

  predicate EndsWith(s: string, p: string)
  {
    |p| <= |s| && s[|s| - |p|..] == p
  }

  predicate OccursAt(s: string, p: string, i: nat)
  {
    i + |p| <= |s| && s[i..i + |p|] == p
  }

  predicate Contains(s: string, p: string)
  {
    exists i: nat | i <= |s| :: OccursAt(s, p, i)
  }

  /** The files a full rescan reads: names ending in ".json" that contain "_items_". */
  predicate IsExportName(name: string)
  {
    EndsWith(name, ".json") && Contains(name, "_items_")
  }

  /** The names that count as `character`'s exports: "<character>_items_" ... ".json". */
  predicate IsExportOf(name: string, character: string)
  {
    StartsWith(name, character + "_items_") && EndsWith(name, ".json")
  }

  /** The date that makes `f` a candidate for `character`'s latest export, if any. */
  function CandidateDate(f: FileEntry, character: string): Option<Stamp>
  {
    if IsExportOf(f.name, character) then ParseFilenameDate(f.name) else None
  }

  /** The candidate date of each file, in listing order. */
  function CandidateDates(files: seq<FileEntry>, character: string): (r: seq<Option<Stamp>>)
    ensures |r| == |files|
    ensures forall i :: 0 <= i < |files| ==> r[i] == CandidateDate(files[i], character)
  {
    seq(|files|, i requires 0 <= i < |files| => CandidateDate(files[i], character))
  }

  /**
   * `get_latest_file_for_char`, specified by `LatestOf` over the files' candidate
   * dates (see `LatestFileNone`, `LatestFileGreatest` and `LatestFileFirstOfEqual`).
   */
  method GetLatestFileForChar(folder: seq<FileEntry>, character: string) returns (latest: Option<nat>)
    ensures latest == LatestOf(CandidateDates(folder, character))
  {
    ghost var dates := CandidateDates(folder, character);
    latest := None;
    var latestDate: Option<Stamp> := None;
    for i := 0 to |folder|
      invariant latest == LatestOf(dates[..i])
      invariant latestDate == if latest.Some? then dates[latest.value] else None
    {
      LatestOfStep(dates, i);
      var name := folder[i].name;
      if IsExportOf(name, character) {
        var fileDate := ParseFilenameDate(name);
        if fileDate.Some? && (latestDate.None? || Before(latestDate.value, fileDate.value)) {
          latestDate := fileDate;
          latest := Some(i);
        }
      }
    }
    assert dates[..|folder|] == dates;
  }

  /** No export of `character` is chosen exactly when no file has the right name and a readable date. */
  lemma LatestFileNone(folder: seq<FileEntry>, character: string)
    ensures LatestOf(CandidateDates(folder, character)).None? <==>
            forall j :: 0 <= j < |folder| ==> CandidateDate(folder[j], character).None?
  {
    LatestOfNone(CandidateDates(folder, character));
  }

  /** No candidate is later than the chosen export. */
  lemma LatestFileGreatest(folder: seq<FileEntry>, character: string, j: nat)
    requires LatestOf(CandidateDates(folder, character)).Some?
    requires j < |folder| && CandidateDate(folder[j], character).Some?
    ensures var d := CandidateDate(folder[LatestOf(CandidateDates(folder, character)).value], character);
            d.Some? && !Before(d.value, CandidateDate(folder[j], character).value)
  {
    LatestOfGreatest(CandidateDates(folder, character), j);
  }

  /** Every candidate listed before the chosen export is strictly earlier: the first of equal dates wins. */
  lemma LatestFileFirstOfEqual(folder: seq<FileEntry>, character: string, j: nat)
    requires LatestOf(CandidateDates(folder, character)).Some?
    requires j < LatestOf(CandidateDates(folder, character)).value && CandidateDate(folder[j], character).Some?
    ensures var d := CandidateDate(folder[LatestOf(CandidateDates(folder, character)).value], character);
            d.Some? && Before(CandidateDate(folder[j], character).value, d.value)
  {
    LatestOfFirstOfEqual(CandidateDates(folder, character), j);
  }
}
