/** The least element and the ascending listing of a finite set of numbers. */
module Sorting {

  ghost predicate IsLeast(m: nat, s: set<nat>) {
    m in s && forall x | x in s :: m <= x
  }

  lemma LeastExists(s: set<nat>) returns (m: nat)
    requires s != {}
    ensures IsLeast(m, s)
    decreases |s|
  {
    var first :| first in s;
    var rest := s - {first};
    if rest == {} {
      assert s == {first};
      m := first;
    } else {
      var y := LeastExists(rest);
      m := if y < first then y else first;
      forall x | x in s
        ensures m <= x
      {
        assert x == first || x in rest;
      }
    }
  }

  lemma LeastUnique(s: set<nat>)
    requires s != {}
    ensures exists m :: IsLeast(m, s)
    ensures forall m, n | IsLeast(m, s) && IsLeast(n, s) :: m == n
  {
    var m := LeastExists(s);
  }

  function Min(s: set<nat>): (m: nat)
    requires s != {}
    ensures IsLeast(m, s)
  {
    LeastUnique(s);
    var m :| m in s && forall x | x in s :: m <= x;
    m
  }

  ghost predicate StrictlyAscending(xs: seq<nat>) {
    forall i, j | 0 <= i < j < |xs| :: xs[i] < xs[j]
  }

  /** The elements of `s` in ascending order. */
  function Sorted(s: set<nat>): (xs: seq<nat>)
    ensures |xs| == |s| && StrictlyAscending(xs)
    ensures forall x :: x in xs <==> x in s
    decreases |s|
  {
    if s == {} then []
    else
      var m := Min(s);
      [m] + Sorted(s - {m})
  }

  lemma FirstIsLeast(xs: seq<nat>, x: nat)
    requires StrictlyAscending(xs) && x in xs
    ensures xs[0] <= x && (x in xs[1..] <==> x != xs[0])
  {
    var i :| 0 <= i < |xs| && xs[i] == x;
    if i > 0 {
      assert xs[1..][i - 1] == x;
    }
  }

  lemma EmptyIff(xs: seq<nat>)
    ensures xs == [] <==> forall x :: x !in xs
  {
    if xs != [] {
      assert xs[0] in xs;
    }
  }

  /** A set has one ascending listing, so every sort of it gives the same list. */
  lemma {:induction false} AscendingUnique(xs: seq<nat>, ys: seq<nat>)
    requires StrictlyAscending(xs) && StrictlyAscending(ys) && forall x :: x in xs <==> x in ys
    ensures xs == ys
    decreases |xs|
  {
    EmptyIff(xs);
    EmptyIff(ys);
    if xs != [] {
      assert xs[0] in ys;
      FirstIsLeast(ys, xs[0]);
      FirstIsLeast(xs, ys[0]);
      forall x
        ensures x in xs[1..] <==> x in ys[1..]
      {
        if x in xs {
          FirstIsLeast(xs, x);
          FirstIsLeast(ys, x);
        }
      }
      AscendingUnique(xs[1..], ys[1..]);
    }
  }
}
