/**
 * Inventory exports as the program sees them once JSON decoding is done, and
 * the merge that turns an export's item list into one quantity per item name.
 */
module Records {
  import opened Wrappers

  /** One entry of `Items`: `Name` and `StackSize` may each be absent. */
  datatype Item = Item(name: Option<string>, stackSize: Option<int>)

  /** A decoded export; `Items` absent is the empty sequence. */
  datatype Record = Record(character: Option<string>, timestamp: Option<string>, items: seq<Item>)

  /** What reading a file gives: a decoded record, or text that is not JSON. */
  datatype FileContent = Decoded(record: Record) | Malformed

  datatype FileEntry = FileEntry(name: string, content: FileContent)

  /** Python truthiness of an optional string: present and non-empty. */
  predicate IsPresent(s: Option<string>)
  {
    s.Some? && s.value != ""
  }

  /** What one entry adds to its name's total: `StackSize`, or 1 when absent. */
  function Stack(it: Item): int
  {
    if it.stackSize.Some? then it.stackSize.value else 1
  }

  /** The quantity that the entries of `items` named `n` add up to. */
  function QuantityOf(items: seq<Item>, n: string): int
  {
    if items == [] then 0
    else (if IsPresent(items[0].name) && items[0].name.value == n then Stack(items[0]) else 0)
         + QuantityOf(items[1..], n)
  }

  /** The non-empty names that occur in `items`. */
  function NamesOf(items: seq<Item>): set<string>
  {
    set i | 0 <= i < |items| && IsPresent(items[i].name) :: items[i].name.value
  }

  /** Reference definition of an export's merged inventory: name to total quantity. */
  function Merged(items: seq<Item>): map<string, int>
  {
    map n | n in NamesOf(items) :: QuantityOf(items, n)
  }

  lemma {:induction false} QuantityOfConcat(a: seq<Item>, b: seq<Item>, n: string)
    ensures QuantityOf(a + b, n) == QuantityOf(a, n) + QuantityOf(b, n)
  {
    if a != [] {
      assert (a + b)[1..] == a[1..] + b;
      QuantityOfConcat(a[1..], b, n);
    } else {
      assert a + b == b;
    }
  }

  /** Merging a concatenation adds the quantities of the parts name by name. */
  lemma MergedConcat(a: seq<Item>, b: seq<Item>)
    ensures Merged(a + b).Keys == Merged(a).Keys + Merged(b).Keys
    ensures forall n :: n in Merged(a + b) ==>
              Merged(a + b)[n] == (if n in Merged(a) then Merged(a)[n] else 0)
                                + (if n in Merged(b) then Merged(b)[n] else 0)
  {
    forall n ensures n in NamesOf(a + b) <==> n in NamesOf(a) || n in NamesOf(b) {
      if n in NamesOf(a + b) {
        var i :| 0 <= i < |a + b| && IsPresent((a + b)[i].name) && (a + b)[i].name.value == n;
        if i < |a| { assert a[i] == (a + b)[i]; } else { assert b[i - |a|] == (a + b)[i]; }
      }
      if n in NamesOf(a) {
        var i :| 0 <= i < |a| && IsPresent(a[i].name) && a[i].name.value == n;
        assert (a + b)[i] == a[i];
      }
      if n in NamesOf(b) {
        var i :| 0 <= i < |b| && IsPresent(b[i].name) && b[i].name.value == n;
        assert (a + b)[|a| + i] == b[i];
      }
    }
    forall n | n in Merged(a + b)
      ensures Merged(a + b)[n] == (if n in Merged(a) then Merged(a)[n] else 0)
                                + (if n in Merged(b) then Merged(b)[n] else 0)
    {
      QuantityOfConcat(a, b, n);
      if n !in NamesOf(a) { QuantityOfAbsent(a, n); }
      if n !in NamesOf(b) { QuantityOfAbsent(b, n); }
    }
  }

  /** A name that no entry carries adds up to nothing. */
  lemma {:induction false} QuantityOfAbsent(items: seq<Item>, n: string)
    requires n !in NamesOf(items)
    ensures QuantityOf(items, n) == 0
  {
    if items != [] {
      assert NamesOf(items[1..]) <= NamesOf(items) by {
        forall m | m in NamesOf(items[1..]) ensures m in NamesOf(items) {
          var i :| 0 <= i < |items[1..]| && IsPresent(items[1..][i].name) && items[1..][i].name.value == m;
          assert items[i + 1] == items[1..][i];
        }
      }
      QuantityOfAbsent(items[1..], n);
    }
  }

  /** An entry with no name, or an empty one, changes nothing wherever it stands. */
  lemma UnnamedEntryIgnored(a: seq<Item>, it: Item, b: seq<Item>)
    requires !IsPresent(it.name)
    ensures Merged(a + [it] + b) == Merged(a + b)
  {
    MergedSnoc(a, it);
    var x, y := Merged(a + [it] + b), Merged(a + b);
    MergedConcat(a + [it], b);
    MergedConcat(a, b);
    assert x.Keys == y.Keys;
    assert forall n :: n in x ==> x[n] == y[n];
  }

  /** The merged inventory of the item list with one more entry appended: the loop's step. */
  lemma MergedSnoc(items: seq<Item>, it: Item)
    ensures Merged(items + [it]) ==
            if IsPresent(it.name) then
              var n := it.name.value;
              Merged(items)[n := (if n in Merged(items) then Merged(items)[n] else 0) + Stack(it)]
            else Merged(items)
  {
    MergedConcat(items, [it]);
    var one := Merged([it]);
    if IsPresent(it.name) {
      assert [it][0] == it && [it][1..] == [];
      assert NamesOf([it]) == {it.name.value};
      assert QuantityOf([it], it.name.value) == Stack(it);
      assert one == map[it.name.value := Stack(it)];
    } else {
      assert NamesOf([it]) == {};
    }
  }

  /**
   * The merge loop of `load_json_files` and `load_latest_if_new`: totals per
   * non-empty name, a missing `StackSize` counting 1.
   */
  method MergeItems(items: seq<Item>) returns (merged: map<string, int>)
    ensures merged == Merged(items)
  {
    merged := map[];
    var i := 0;
    while i < |items|
      invariant 0 <= i <= |items|
      invariant merged == Merged(items[..i])
    {
      var it := items[i];
      assert items[..i + 1] == items[..i] + [it];
      MergedSnoc(items[..i], it);
      if IsPresent(it.name) {
        var n := it.name.value;
        merged := merged[n := (if n in merged then merged[n] else 0) + Stack(it)];
      }
      i := i + 1;
    }
    assert items[..i] == items;
  }

  /** The merged names are exactly the non-empty names some entry carries. */
  lemma MergedKeys(items: seq<Item>, n: string)
    ensures n in Merged(items) <==> exists i :: 0 <= i < |items| && items[i].name == Some(n) && n != ""
  {
    if n in Merged(items) {
      var i :| 0 <= i < |items| && IsPresent(items[i].name) && items[i].name.value == n;
      assert items[i].name == Some(n);
    }
  }

  /** Two "Ore" stacks of 3 and 5, an unnamed entry and a "Gem" without `StackSize`. */
  lemma MergeExample()
    ensures Merged([Item(Some("Ore"), Some(3)), Item(None, Some(7)), Item(Some("Ore"), Some(5)),
                    Item(Some("Gem"), None), Item(Some(""), Some(2))])
         == map["Ore" := 8, "Gem" := 1]
  {
    var items := [Item(Some("Ore"), Some(3)), Item(None, Some(7)), Item(Some("Ore"), Some(5)),
                  Item(Some("Gem"), None), Item(Some(""), Some(2))];
    assert NamesOf(items) == {"Ore", "Gem"} by {
      assert items[0].name.value == "Ore" && items[3].name.value == "Gem";
    }
  }
}
