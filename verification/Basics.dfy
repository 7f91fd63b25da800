/** Small definitions shared by the models of all components. */
module Basics {

  datatype Option<T> = None | Some(value: T)

  function Min(a: int, b: int): int { if a < b then a else b }

  function Max(a: int, b: int): int { if a > b then a else b }

  predicate Distinct<T(==)>(s: seq<T>) {
    forall i, j :: 0 <= i < j < |s| ==> s[i] != s[j]
  }

  lemma {:induction false} SubsetSize<T>(a: set<T>, b: set<T>)
    requires a <= b
    ensures |a| <= |b|
  {
    if a != {} {
      var x :| x in a;
      SubsetSize(a - {x}, b - {x});
    }
  }

  /** Every string once, in the order of first occurrence. */
  function Firsts(ids: seq<string>): (r: seq<string>)
    ensures Distinct(r) && forall x :: x in r <==> x in ids
  {
    if |ids| == 0 then []
    else
      var front, x := Firsts(ids[..|ids| - 1]), ids[|ids| - 1];
      assert ids == ids[..|ids| - 1] + [x];
      if x in front then front else front + [x]
  }

  lemma {:induction false} FirstsOfDistinct(s: seq<string>)
    requires Distinct(s)
    ensures Firsts(s) == s
  {
    if |s| > 0 {
      FirstsOfDistinct(s[..|s| - 1]);
      assert s == s[..|s| - 1] + [s[|s| - 1]];
    }
  }

  lemma FirstsSnoc(ids: seq<string>, x: string)
    ensures Firsts(ids + [x]) == if x in ids then Firsts(ids) else Firsts(ids) + [x]
  {
    assert (ids + [x])[..|ids|] == ids;
  }
}
