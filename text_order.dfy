/**
 * The order in which SQLite's `ORDER BY` lists TEXT values under its default
 * BINARY collation: code point by code point, a proper prefix first.  The
 * store's listing queries (`SELECT DISTINCT ... ORDER BY`) are modelled as the
 * sorted enumeration of a finite set of strings under this order.
 */
module TextOrder {

  /** `a` sorts strictly before `b`. */
  predicate Below(a: string, b: string)
  {
    if a == [] then b != []
    else if b == [] then false
    else if a[0] != b[0] then a[0] < b[0]
    else Below(a[1..], b[1..])
  }

  lemma BelowIrreflexive(a: string)
    ensures !Below(a, a)
  {}

  lemma BelowTotal(a: string, b: string)
    ensures a == b || Below(a, b) || Below(b, a)
  {}

  lemma BelowTransitive(a: string, b: string, c: string)
    requires Below(a, b) && Below(b, c)
    ensures Below(a, c)
  {}

  predicate IsLeast(m: string, s: set<string>)
  {
    m in s && forall y :: y in s ==> !Below(y, m)
  }

  lemma {:induction false} LeastExists(s: set<string>)
    requires s != {}
    ensures exists m :: IsLeast(m, s)
  {
    var x :| x in s;
    if s == {x} {
      BelowIrreflexive(x);
      assert IsLeast(x, s);
    } else {
      LeastExists(s - {x});
      var m :| IsLeast(m, s - {x});
      if Below(x, m) {
        forall y | y in s
          ensures !Below(y, x)
        {
          BelowIrreflexive(x);
          if y != x && Below(y, x) {
            BelowTransitive(y, x, m);
          }
        }
        assert IsLeast(x, s);
      } else {
        BelowTotal(x, m);
        BelowIrreflexive(m);
        assert IsLeast(m, s);
      }
    }
  }

  lemma LeastUnique(s: set<string>)
    ensures forall a, b :: IsLeast(a, s) && IsLeast(b, s) ==> a == b
  {
    forall a, b | IsLeast(a, s) && IsLeast(b, s)
      ensures a == b
    {
      BelowTotal(a, b);
    }
  }

  /** The elements of `s`, each once, in ascending text order. */
  function Ascending(s: set<string>): (r: seq<string>)
    ensures |r| == |s|
    ensures forall x :: x in r <==> x in s
    ensures forall i, j :: 0 <= i < j < |r| ==> Below(r[i], r[j])
    decreases |s|
  {
    if s == {} then []
    else
      LeastExists(s);
      LeastUnique(s);
      var m :| IsLeast(m, s);
      var rest := Ascending(s - {m});
      assert forall j :: 0 <= j < |rest| ==> Below(m, rest[j]) by {
        forall j | 0 <= j < |rest|
          ensures Below(m, rest[j])
        {
          assert rest[j] in rest;
          assert rest[j] in s - {m};
          BelowTotal(m, rest[j]);
        }
      }
      [m] + rest
  }

  /** `s` backwards. */
  function Reversed(s: seq<string>): (r: seq<string>)
    ensures |r| == |s|
    ensures forall i :: 0 <= i < |s| ==> r[i] == s[|s| - 1 - i]
  {
    if s == [] then [] else Reversed(s[1..]) + [s[0]]
  }

  /** The elements of `s`, each once, in descending text order. */
  function Descending(s: set<string>): (r: seq<string>)
    ensures |r| == |s|
    ensures forall x :: x in r <==> x in s
    ensures forall i, j :: 0 <= i < j < |r| ==> Below(r[j], r[i])
  {
    var up := Ascending(s);
    var r := Reversed(up);
    assert forall x :: x in r <==> x in up by {
      forall x ensures x in r <==> x in up {
        if x in up {
          var k :| 0 <= k < |up| && up[k] == x;
          assert r[|up| - 1 - k] == x;
        }
      }
    }
    r
  }
}
