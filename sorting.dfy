/** Python's `sorted` over a set of variable indices, which the source applies before walking a dictionary or a set. */
module Sorting {

  predicate StrictlyIncreasing(s: seq<int>)
  {
    forall i, j :: 0 <= i < j < |s| ==> s[i] < s[j]
  }

  /** Some element of a non-empty set. */
  method Pick(s: set<int>) returns (x: int)
    requires s != {}
    ensures x in s
  {
    if forall y :: y !in s {
      assert false;
    }
    x :| x in s;
  }

  /** The least element of a non-empty set. */
  method Minimum(s: set<int>) returns (m: int)
    requires s != {}
    ensures m in s
    ensures forall x :: x in s ==> m <= x
  {
    m := Pick(s);
    var rest := s - {m};
    while rest != {}
      invariant rest <= s
      invariant m in s
      invariant forall x :: x in s && x !in rest ==> m <= x
      decreases rest
    {
      var y := Pick(rest);
      if y < m {
        m := y;
      }
      rest := rest - {y};
    }
  }

  /** `sorted(s)`: the elements of `s`, each once, in ascending order. */
  method Sorted(s: set<int>) returns (r: seq<int>)
    ensures StrictlyIncreasing(r)
    ensures forall x :: x in r <==> x in s
    ensures |r| == |s|
  {
    r := [];
    var remaining := s;
    while remaining != {}
      invariant remaining <= s
      invariant StrictlyIncreasing(r)
      invariant forall x :: x in r <==> x in s && x !in remaining
      invariant forall i, y :: 0 <= i < |r| && y in remaining ==> r[i] < y
      invariant |r| + |remaining| == |s|
      decreases remaining
    {
      var m := Minimum(remaining);
      r := r + [m];
      remaining := remaining - {m};
    }
  }
}
