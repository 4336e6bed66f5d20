/**
 * The comparison side of the application window: the comparison timestamps
 * offered once a reference is chosen (`update_comp_timestamps`), how the
 * "Latest" choice is resolved, and the item-by-item difference that
 * `compare` computes between the reference and the comparison snapshot.
 * The window's selections and its per-character timestamp cache are passed
 * in as values.
 */
module Comparison {
  import opened Wrappers
  import opened Stamps
  import opened Records
  import opened Inventory
  import TextOrder

  // ---- The difference between two snapshots ----

  /** `items.get(name, 0)`: an absent item counts as quantity 0. */
  function Quantity(items: map<string, int>, n: string): int
  {
    if n in items then items[n] else 0
  }

  /** Reference definition of the changes from `ref` to `comp`: every name whose quantity differs, with its delta. */
  function Changes(ref: map<string, int>, comp: map<string, int>): map<string, int>
  {
    map n | n in ref.Keys + comp.Keys && Quantity(comp, n) != Quantity(ref, n) :: Quantity(comp, n) - Quantity(ref, n)
  }

  /** The loop of `compare` that fills `changes` from the union of both snapshots' names. */
  method Diff(ref: map<string, int>, comp: map<string, int>) returns (changes: map<string, int>)
    ensures changes == Changes(ref, comp)
    ensures forall n :: n in changes <==> Quantity(comp, n) != Quantity(ref, n)
    ensures forall n :: n in changes ==> changes[n] == Quantity(comp, n) - Quantity(ref, n)
  {
    changes := map[];
    var allNames := ref.Keys + comp.Keys;
    var remaining := allNames;
    while remaining != {}
      invariant remaining <= allNames
      invariant forall n :: n in changes <==> n in allNames - remaining && Quantity(comp, n) != Quantity(ref, n)
      invariant forall n :: n in changes ==> changes[n] == Quantity(comp, n) - Quantity(ref, n)
      decreases remaining
    {
      var name :| name in remaining;
      var delta := Quantity(comp, name) - Quantity(ref, name);
      if delta != 0 {
        changes := changes[name := delta];
      }
      remaining := remaining - {name};
    }
  }

  /** Comparing the other way round negates every change and drops none. */
  lemma ChangesAntisymmetric(ref: map<string, int>, comp: map<string, int>)
    ensures Changes(comp, ref).Keys == Changes(ref, comp).Keys
    ensures forall n :: n in Changes(ref, comp) ==> Changes(comp, ref)[n] == -Changes(ref, comp)[n]
  {}

  /** Changes over two steps add up to the change over both (absent names counting 0). */
  lemma ChangesCompose(a: map<string, int>, b: map<string, int>, c: map<string, int>, n: string)
    ensures Quantity(Changes(a, c), n) == Quantity(Changes(a, b), n) + Quantity(Changes(b, c), n)
  {}

  /** {A:5, B:2} against {A:5, C:3}: B lost 2, C gained 3, A unchanged and left out. */
  lemma ChangesExample()
    ensures Changes(map["A" := 5, "B" := 2], map["A" := 5, "C" := 3]) == map["B" := -2, "C" := 3]
  {
    var ref, comp := map["A" := 5, "B" := 2], map["A" := 5, "C" := 3];
    assert ref.Keys + comp.Keys == {"A", "B", "C"};
    assert Quantity(comp, "A") == Quantity(ref, "A");
  }

  // ---- Timestamps in chronological order ----

  ghost predicate AllParse(s: seq<string>)
  {
    forall i :: 0 <= i < |s| ==> ParseTimestamp(s[i]).Some?
  }

  function StampOf(t: string): Stamp
    requires ParseTimestamp(t).Some?
  {
    ParseTimestamp(t).value
  }

  /** `t` parses and is strictly later than `ref`: `parse_timestamp(t) > ref_dt`. */
  predicate IsLaterThan(t: string, ref: Stamp)
  {
    ParseTimestamp(t).Some? && Before(ref, ParseTimestamp(t).value)
  }

  /** The list comprehension of `update_comp_timestamps`: the timestamps strictly after `ref`, in order. */
  function Later(all: seq<string>, ref: Stamp): (r: seq<string>)
    ensures AllParse(r)
    ensures forall t :: multiset(r)[t] == if IsLaterThan(t, ref) then multiset(all)[t] else 0
  {
    if all == [] then []
    else
      assert all == [all[0]] + all[1..];
      (if IsLaterThan(all[0], ref) then [all[0]] else []) + Later(all[1..], ref)
  }

  /** `s` is ordered latest first by `key`. */
  ghost predicate LatestFirstBy<T>(s: seq<T>, key: T -> Stamp)
  {
    forall i, j :: 0 <= i < j < |s| ==> !Before(key(s[i]), key(s[j]))
  }

  /** Place `x` before the first element whose key is not later than its own. */
  function InsertLatestFirst<T>(x: T, s: seq<T>, key: T -> Stamp): (r: seq<T>)
    requires LatestFirstBy(s, key)
    ensures LatestFirstBy(r, key)
    ensures multiset(r) == multiset(s) + multiset{x}
  {
    if s == [] || !Before(key(x), key(s[0])) then
      NotBeforeHead(x, s, key);
      [x] + s
    else
      assert s == [s[0]] + s[1..];
      var rest := InsertLatestFirst(x, s[1..], key);
      BeforeTotal(key(x), key(s[0]));
      NotBeforeRest(s[0], s[1..], x, rest, key);
      [s[0]] + rest
  }

  /** An element not later than the first of a latest-first sequence is not later than any of it. */
  lemma NotBeforeHead<T>(x: T, s: seq<T>, key: T -> Stamp)
    requires LatestFirstBy(s, key)
    requires s == [] || !Before(key(x), key(s[0]))
    ensures forall j :: 0 <= j < |s| ==> !Before(key(x), key(s[j]))
  {
    forall j | 0 <= j < |s| ensures !Before(key(x), key(s[j])) {
      if j > 0 && Before(key(x), key(s[j])) {
        AtMostThenBefore(key(s[0]), key(x), key(s[j]));
      }
    }
  }

  /** Nothing in `s` or `x` is later than `y`, so nothing in a rearrangement of them is. */
  lemma NotBeforeRest<T>(y: T, s: seq<T>, x: T, rest: seq<T>, key: T -> Stamp)
    requires LatestFirstBy([y] + s, key)
    requires !Before(key(y), key(x))
    requires multiset(rest) == multiset(s) + multiset{x}
    ensures forall j :: 0 <= j < |rest| ==> !Before(key(y), key(rest[j]))
  {
    forall j | 0 <= j < |rest| ensures !Before(key(y), key(rest[j])) {
      assert rest[j] in multiset(s) + multiset{x};
      if rest[j] != x {
        assert rest[j] in s;
        var k :| 0 <= k < |s| && s[k] == rest[j];
        assert ([y] + s)[0] == y && ([y] + s)[k + 1] == s[k];
      }
    }
  }

  /** Insertion sort, latest first by `key`: a permutation of `s`. */
  function SortLatestFirst<T>(s: seq<T>, key: T -> Stamp): (r: seq<T>)
    ensures LatestFirstBy(r, key)
    ensures multiset(r) == multiset(s)
  {
    if s == [] then []
    else
      assert s == [s[0]] + s[1..];
      InsertLatestFirst(s[0], SortLatestFirst(s[1..], key), key)
  }

  /** The key of `sorted(..., key=parse_timestamp)`; only ever applied to timestamps that parse. */
  function KeyOf(t: string): Stamp
  {
    if ParseTimestamp(t).Some? then ParseTimestamp(t).value else Stamp(0, 0, 0, 0, 0, 0)
  }

  // ---- The comparison timestamps offered ----

  /** `self.timestamps.get(char, [])`. */
  function Cached(cache: map<string, seq<string>>, character: string): seq<string>
  {
    if character in cache then cache[character] else []
  }

  datatype Candidates =
    | Unchanged                  // no character or no reference selected: the list is left as it was
    | CandidatesTypeError        // a timestamp that does not parse was compared: Python raises TypeError
    | Listed(values: seq<string>)

  /**
   * `update_comp_timestamps`: "Latest" followed by the cached timestamps
   * strictly later than the reference, latest first.
   */
  function CompCandidates(cache: map<string, seq<string>>, character: string, refTs: string): (r: Candidates)
    ensures r.Unchanged? <==> character == "" || refTs == ""
    ensures r.CandidatesTypeError? <==>
              && character != "" && refTs != "" && Cached(cache, character) != []
              && (ParseTimestamp(refTs).None? || !AllParse(Cached(cache, character)))
    ensures r.Listed? ==> |r.values| > 0 && r.values[0] == "Latest"
    ensures r.Listed? ==>
              var later := r.values[1..];
              && AllParse(later)
              && (forall i, j :: 0 <= i < j < |later| ==> !Before(StampOf(later[i]), StampOf(later[j])))
              && forall t :: multiset(later)[t] ==
                   if ParseTimestamp(refTs).Some? && IsLaterThan(t, ParseTimestamp(refTs).value)
                   then multiset(Cached(cache, character))[t] else 0
  {
    if character == "" || refTs == "" then Unchanged
    else
      var all := Cached(cache, character);
      if all == [] then
        assert ["Latest"][1..] == [];
        Listed(["Latest"])
      else if ParseTimestamp(refTs).None? || exists i | 0 <= i < |all| :: ParseTimestamp(all[i]).None? then
        CandidatesTypeError
      else
        var picked := Later(all, ParseTimestamp(refTs).value);
        var later := SortLatestFirst(picked, KeyOf);
        assert AllParse(later) && forall i :: 0 <= i < |later| ==> KeyOf(later[i]) == StampOf(later[i]) by {
          forall i | 0 <= i < |later| ensures ParseTimestamp(later[i]).Some? {
            assert later[i] in multiset(picked);
          }
        }
        assert (["Latest"] + later)[1..] == later;
        Listed(["Latest"] + later)
  }

  // ---- "Latest" falling back to the cache ----

  datatype Fallback =
    | NoneCached        // `self.comp_ts = None`
    | Greatest(ts: string)
    | MaxTypeError      // `max` compared a timestamp that does not parse

  function StampsOf(all: seq<string>): (r: seq<Option<Stamp>>)
    ensures |r| == |all| && forall i :: 0 <= i < |all| ==> r[i] == ParseTimestamp(all[i])
  {
    seq(|all|, i requires 0 <= i < |all| => ParseTimestamp(all[i]))
  }

  /**
   * `max(all_ts, key=parse_timestamp)` when the cache is not empty, None
   * otherwise.  A single timestamp is returned without being compared.
   */
  function LatestCached(all: seq<string>): (r: Fallback)
    ensures r.NoneCached? <==> all == []
    ensures r.MaxTypeError? <==> |all| >= 2 && !AllParse(all)
    ensures r.Greatest? ==> r.ts in all
    ensures r.Greatest? && |all| >= 2 ==>
              && ParseTimestamp(r.ts).Some?
              && forall i :: 0 <= i < |all| ==> !Before(StampOf(r.ts), StampOf(all[i]))
  {
    if all == [] then NoneCached
    else if |all| == 1 then Greatest(all[0])
    else if exists i | 0 <= i < |all| :: ParseTimestamp(all[i]).None? then MaxTypeError
    else
      var dates := StampsOf(all);
      LatestOfNone(dates);
      assert dates[0].Some?;
      var k := LatestOf(dates).value;
      assert forall i :: 0 <= i < |all| ==> !Before(StampOf(all[k]), StampOf(all[i])) by {
        forall i | 0 <= i < |all| ensures !Before(StampOf(all[k]), StampOf(all[i])) {
          LatestOfGreatest(dates, i);
        }
      }
      Greatest(all[k])
  }

  /**
   * When the cache holds the store's listing (descending text order) and
   * every timestamp parses, the fallback is simply the first one listed: the
   * text order of the store is chronological.
   */
  lemma LatestCachedIsFirstListed(all: seq<string>)
    requires all != [] && AllParse(all)
    requires forall i, j :: 0 <= i < j < |all| ==> TextOrder.Below(all[j], all[i])
    ensures LatestCached(all) == Greatest(all[0])
  {
    if |all| >= 2 {
      var dates := StampsOf(all);
      LatestOfNone(dates);
      var k := LatestOf(dates).value;
      if k != 0 {
        LatestOfFirstOfEqual(dates, 0);
        TextOrderIsChronological(all[k], all[0]);
        BeforeIrreflexive(StampOf(all[0]));
        BeforeTransitive(StampOf(all[0]), StampOf(all[k]), StampOf(all[0]));
      }
    }
  }

  // ---- compare ----

  datatype Comparison =
    | Compared(compTs: string, changes: map<string, int>)
    | NotCompared   // no reference or no comparison timestamp: `compare` returns early
    | Aborted       // an exception ends `compare` before the difference is computed

  /**
   * `compare`, up to the computed `changes`.  Returns the comparison and the
   * window's timestamp cache afterwards (refreshed when "Latest" stored a new
   * snapshot).
   */
  method Compare(store: Store, folder: seq<FileEntry>, cache: map<string, seq<string>>,
                 character: string, refTs: string, compSel: string)
    returns (result: Comparison, cache': map<string, seq<string>>)
    requires store.Valid()
    modifies store
    ensures store.Valid()
    ensures result.Compared? ==>
              && refTs != "" && result.compTs != ""
              && result.changes == Changes(store.ItemsAt(character, refTs), store.ItemsAt(character, result.compTs))
    ensures compSel != "Latest" ==>
              && store.snapshots == old(store.snapshots) && cache' == cache
              && result == if refTs == "" || compSel == "" then NotCompared
                           else Compared(compSel, Changes(store.ItemsAt(character, refTs), store.ItemsAt(character, compSel)))
    ensures compSel == "Latest" ==>
              var (outcome, after) := LatestEffect(old(store.snapshots), folder, character);
              && store.snapshots == after
              && (outcome.Undecodable? ==> result == Aborted && cache' == cache)
              && (outcome.NewSnapshot? && outcome.timestamp != "" ==>
                    var ts, listed := outcome.timestamp, store.Timestamps(character);
                    && cache' == (if character != "" then cache[character := listed] else cache)
                    && result ==
                         if character != "" && listed != [] &&
                            CompCandidates(cache', character, if refTs in listed then refTs else listed[0]).CandidatesTypeError?
                         then Aborted
                         else if refTs == "" then NotCompared
                         else Compared(ts, Changes(store.ItemsAt(character, refTs), store.ItemsAt(character, ts))))
              && (outcome.NothingNew? || outcome == NewSnapshot("") ==>
                    && cache' == cache
                    && result ==
                         match LatestCached(Cached(cache, character))
                         case NoneCached => NotCompared
                         case MaxTypeError => Aborted
                         case Greatest(ts) =>
                           if refTs == "" || ts == "" then NotCompared
                           else Compared(ts, Changes(store.ItemsAt(character, refTs), store.ItemsAt(character, ts))))
  {
    cache' := cache;
    var compTs: string;
    if compSel == "Latest" {
      var outcome := store.LoadLatestIfNew(folder, character);
      if outcome.Undecodable? {
        return Aborted, cache';
      }
      if outcome.NewSnapshot? && outcome.timestamp != "" {
        // `update_ref_timestamps`: refresh the cache, select the reference
        // again and recompute the comparison list, which may raise.
        if character != "" {
          var tsList := store.Timestamps(character);
          cache' := cache[character := tsList];
          if tsList != [] {
            var refShown := if refTs in tsList then refTs else tsList[0];
            if CompCandidates(cache', character, refShown).CandidatesTypeError? {
              return Aborted, cache';
            }
          }
        }
        compTs := outcome.timestamp;
      } else {
        match LatestCached(Cached(cache, character))
        case NoneCached =>
          return NotCompared, cache';
        case MaxTypeError =>
          return Aborted, cache';
        case Greatest(ts) =>
          compTs := ts;
      }
    } else {
      compTs := compSel;
    }
    if refTs == "" || compTs == "" {
      return NotCompared, cache';
    }
    var refItems := store.ItemsAt(character, refTs);
    var compItems := store.ItemsAt(character, compTs);
    var changes := Diff(refItems, compItems);
    return Compared(compTs, changes), cache';
  }
}
