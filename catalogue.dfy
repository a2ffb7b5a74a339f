/**
 * The catalogue query of `GET /vehicle-types`: the distinct `type` values of `vehicles`,
 * in ascending order, each offered as `{value: t, name: t}`.
 */
module Catalogue {
  import opened Tables

  datatype TypeOption = TypeOption(value: string, name: string)

  /** Lexicographic order on strings, character by character; a proper prefix comes first. */
  predicate Below(a: string, b: string)
    decreases |a|
  {
    if |a| == 0 then |b| > 0
    else if |b| == 0 then false
    else if a[0] != b[0] then a[0] < b[0]
    else Below(a[1..], b[1..])
  }

  lemma {:induction false} BelowIrreflexive(a: string)
    ensures !Below(a, a)
    decreases |a|
  {
    if |a| > 0 {
      BelowIrreflexive(a[1..]);
    }
  }

  lemma {:induction false} BelowTransitive(a: string, b: string, c: string)
    requires Below(a, b) && Below(b, c)
    ensures Below(a, c)
    decreases |a|
  {
    if |a| > 0 && a[0] == b[0] && b[0] == c[0] {
      BelowTransitive(a[1..], b[1..], c[1..]);
    }
  }

  lemma {:induction false} BelowTotal(a: string, b: string)
    ensures a == b || Below(a, b) || Below(b, a)
    decreases |a|
  {
    if |a| > 0 && |b| > 0 && a[0] == b[0] {
      BelowTotal(a[1..], b[1..]);
      if a[1..] == b[1..] {
        assert a == [a[0]] + a[1..] && b == [b[0]] + b[1..];
      }
    }
  }

  /** Every element is strictly below every later one: sorted, and without duplicates. */
  predicate Ascending(s: seq<string>) {
    forall i, j :: 0 <= i < j < |s| ==> Below(s[i], s[j])
  }

  lemma AscendingHasNoDuplicates(s: seq<string>)
    requires Ascending(s)
    ensures forall i, j :: 0 <= i < j < |s| ==> s[i] != s[j]
  {
    forall i, j | 0 <= i < j < |s|
      ensures s[i] != s[j]
    {
      BelowIrreflexive(s[i]);
    }
  }

  /** An element below the head of an ascending sequence is below all of it. */
  lemma BelowAll(x: string, s: seq<string>)
    requires Ascending(s) && |s| > 0 && Below(x, s[0])
    ensures forall y :: y in s ==> Below(x, y)
  {
    forall y | y in s
      ensures Below(x, y)
    {
      if y != s[0] {
        BelowTransitive(x, s[0], y);
      }
    }
  }

  /** Adds `x` to an ascending sequence unless it is already there. */
  function Insert(s: seq<string>, x: string): (r: seq<string>)
    requires Ascending(s)
    ensures Ascending(r)
    ensures forall y :: y in r <==> y in s || y == x
  {
    if |s| == 0 then [x]
    else if x == s[0] then s
    else if Below(x, s[0]) then BelowAll(x, s); [x] + s
    else
      BelowTotal(x, s[0]);
      var t := Insert(s[1..], x);
      assert forall y :: y in t ==> Below(s[0], y);
      [s[0]] + t
  }

  /** The distinct values of `xs`, in ascending order. */
  function SortedDistinct(xs: seq<string>): (r: seq<string>)
    ensures Ascending(r)
    ensures forall y :: y in r <==> y in xs
  {
    if |xs| == 0 then []
    else
      var last := |xs| - 1;
      assert xs == xs[..last] + [xs[last]];
      Insert(SortedDistinct(xs[..last]), xs[last])
  }

  lemma SameValuesSameEmptiness(a: seq<string>, b: seq<string>)
    requires forall y :: y in a <==> y in b
    ensures |a| == 0 <==> |b| == 0
  {
    if |a| > 0 {
      assert a[0] in b;
    }
    if |b| > 0 {
      assert b[0] in a;
    }
  }

  /** An ascending sequence is determined by the values it holds. */
  lemma {:induction false} AscendingUnique(a: seq<string>, b: seq<string>)
    requires Ascending(a) && Ascending(b)
    requires forall y :: y in a <==> y in b
    ensures a == b
    decreases |a|
  {
    SameValuesSameEmptiness(a, b);
    if |a| > 0 {
      assert a[0] in a && b[0] in b;
      var k :| 0 <= k < |b| && b[k] == a[0];
      var m :| 0 <= m < |a| && a[m] == b[0];
      if k > 0 && m > 0 {
        BelowTransitive(a[0], b[0], a[0]);
        BelowIrreflexive(a[0]);
      } else if k > 0 {
        BelowIrreflexive(b[0]);
      } else if m > 0 {
        BelowIrreflexive(a[0]);
      }
      assert a[0] == b[0];
      AscendingHasNoDuplicates(a);
      AscendingHasNoDuplicates(b);
      forall y
        ensures y in a[1..] <==> y in b[1..]
      {
        if y in a[1..] {
          var i :| 0 <= i < |a| - 1 && a[1..][i] == y;
          assert a[i + 1] == y && y in b;
          var j :| 0 <= j < |b| && b[j] == y;
          assert j != 0;
          assert b[1..][j - 1] == y;
        }
        if y in b[1..] {
          var i :| 0 <= i < |b| - 1 && b[1..][i] == y;
          assert b[i + 1] == y && y in a;
          var j :| 0 <= j < |a| && a[j] == y;
          assert j != 0;
          assert a[1..][j - 1] == y;
        }
      }
      AscendingUnique(a[1..], b[1..]);
      assert a == [a[0]] + a[1..] && b == [b[0]] + b[1..];
    }
  }

  /** The set of values in the `type` column of `vs`. */
  function TypesOf(vs: seq<Vehicle>): set<string> {
    set v | v in vs :: v.vehicleType
  }

  /** The `type` column of `vehicles`, one entry per row. */
  function TypeColumn(vs: seq<Vehicle>): (ts: seq<string>)
    ensures forall t :: t in ts <==> t in TypesOf(vs)
  {
    if |vs| == 0 then []
    else [vs[0].vehicleType] + TypeColumn(vs[1..])
  }

  /** The response of the vehicle-types endpoint for table `vs`. */
  function VehicleTypes(vs: seq<Vehicle>): (r: seq<TypeOption>)
    ensures forall i, j :: 0 <= i < j < |r| ==> Below(r[i].value, r[j].value)
    ensures forall i :: 0 <= i < |r| ==> r[i].name == r[i].value
    ensures (set o | o in r :: o.value) == TypesOf(vs)
  {
    var ts := SortedDistinct(TypeColumn(vs));
    var r := seq(|ts|, i requires 0 <= i < |ts| => TypeOption(ts[i], ts[i]));
    assert forall i :: 0 <= i < |r| ==> r[i].value == ts[i];
    r
  }

  /** The response lists each type once. */
  lemma VehicleTypesDistinct(vs: seq<Vehicle>)
    ensures forall i, j :: 0 <= i < j < |VehicleTypes(vs)| ==> VehicleTypes(vs)[i] != VehicleTypes(vs)[j]
  {
    var r := VehicleTypes(vs);
    forall i, j | 0 <= i < j < |r|
      ensures r[i] != r[j]
    {
      BelowIrreflexive(r[i].value);
    }
  }

  /** The response depends only on which types occur, not on row order or multiplicity. */
  lemma VehicleTypesIgnoresRowOrder(vs: seq<Vehicle>, ws: seq<Vehicle>)
    requires TypesOf(vs) == TypesOf(ws)
    ensures VehicleTypes(vs) == VehicleTypes(ws)
  {
    AscendingUnique(SortedDistinct(TypeColumn(vs)), SortedDistinct(TypeColumn(ws)));
  }
}
