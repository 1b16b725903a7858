/**
 * Python iterates sets and dicts in an order the model does not fix.
 * `Enumerate` picks one duplicate-free listing of a finite set; everything
 * that iterates over a set goes through it, so properties proved about the
 * callers hold whatever order was picked.
 */
module Enumeration {

  predicate Distinct(xs: seq<string>)
  {
    forall i, j :: 0 <= i < j < |xs| ==> xs[i] != xs[j]
  }

  /** Some listing of `s`, each element exactly once. */
  ghost function Enumerate(s: set<string>): (r: seq<string>)
    ensures |r| == |s|
    ensures Distinct(r)
    ensures forall x :: x in r <==> x in s
    decreases |s|
  {
    if s == {} then []
    else
      var x :| x in s;
      [x] + Enumerate(s - {x})
  }

  /** A singleton set has exactly one listing. */
  lemma EnumerateSingleton(x: string)
    ensures Enumerate({x}) == [x]
  {
    var r := Enumerate({x});
    assert |r| == 1 && r[0] in {x};
  }

  /** A two-element set is listed in one of its two orders. */
  lemma EnumeratePair(x: string, y: string)
    requires x != y
    ensures Enumerate({x, y}) == [x, y] || Enumerate({x, y}) == [y, x]
  {
    var r := Enumerate({x, y});
    assert |{x, y}| == 2;
    assert r[0] in {x, y} && r[1] in {x, y} && r[0] != r[1];
  }
}
