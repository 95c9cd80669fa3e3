/** A stable sort by a comparison, and what makes its result unique. */
module StableSorts {

  /** Total and transitive: a comparison that a sort can use. */
  ghost predicate Order<T(!new)>(le: (T, T) -> bool) {
    && (forall a, b :: le(a, b) || le(b, a))
    && (forall a, b, c | le(a, b) && le(b, c) :: le(a, c))
  }

  ghost predicate Ordered<T>(le: (T, T) -> bool, xs: seq<T>) {
    forall i, j | 0 <= i < j < |xs| :: le(xs[i], xs[j])
  }

  /** Put an element behind all that do not come after it. */
  function Insert<T>(le: (T, T) -> bool, xs: seq<T>, x: T): seq<T> {
    if xs == [] || le(xs[|xs| - 1], x) then xs + [x]
    else Insert(le, xs[..|xs| - 1], x) + [xs[|xs| - 1]]
  }

  function Sort<T>(le: (T, T) -> bool, xs: seq<T>): seq<T> {
    if xs == [] then [] else Insert(le, Sort(le, xs[..|xs| - 1]), xs[|xs| - 1])
  }

  ghost predicate Below<T>(le: (T, T) -> bool, xs: seq<T>, top: T) {
    forall x | x in xs :: le(x, top)
  }

  lemma {:induction false} InsertKeeps<T>(le: (T, T) -> bool, xs: seq<T>, x: T)
    ensures multiset(Insert(le, xs, x)) == multiset(xs) + multiset{x}
  {
    if xs != [] {
      assert xs == xs[..|xs| - 1] + [xs[|xs| - 1]];
      InsertKeeps(le, xs[..|xs| - 1], x);
    }
  }

  lemma {:induction false} InsertOrdered<T(!new)>(le: (T, T) -> bool, xs: seq<T>, x: T)
    requires Order(le) && Ordered(le, xs)
    ensures Ordered(le, Insert(le, xs, x))
  {
    if xs != [] && !le(xs[|xs| - 1], x) {
      var rest, last := xs[..|xs| - 1], xs[|xs| - 1];
      InsertOrdered(le, rest, x);
      InsertKeeps(le, rest, x);
      assert le(x, last) && Below(le, rest, last);
      var front := Insert(le, rest, x);
      forall i | 0 <= i < |front|
        ensures le(front[i], last)
      {
        assert front[i] in multiset(front);
      }
    } else if xs != [] {
      forall i | 0 <= i < |xs|
        ensures le(xs[i], x)
      {
        assert le(xs[i], xs[|xs| - 1]);
      }
    }
  }

  lemma NothingOrdered<T>(le: (T, T) -> bool, xs: seq<T>)
    requires xs == []
    ensures Ordered(le, xs)
  {
  }

  /** The sort orders and loses nothing. */
  lemma {:induction false} SortSorts<T(!new)>(le: (T, T) -> bool, xs: seq<T>)
    requires Order(le)
    ensures Ordered(le, Sort(le, xs)) && multiset(Sort(le, xs)) == multiset(xs)
  {
    hide Insert, Ordered, Order;
    if xs == [] {
      assert Ordered(le, Sort(le, xs)) by { NothingOrdered(le, Sort(le, xs)); }
    } else {
      var n := |xs| - 1;
      SortSorts(le, xs[..n]);
      InsertOrdered(le, Sort(le, xs[..n]), xs[n]);
      InsertKeeps(le, Sort(le, xs[..n]), xs[n]);
      assert xs == xs[..n] + [xs[n]];
    }
  }

  /** The sort leaves what is in order alone. */
  lemma {:induction false} SortStays<T>(le: (T, T) -> bool, xs: seq<T>)
    requires Ordered(le, xs)
    ensures Sort(le, xs) == xs
  {
    if xs != [] {
      var n := |xs| - 1;
      SortStays(le, xs[..n]);
      assert xs == xs[..n] + [xs[n]];
    }
  }

  /** No two different elements tie. */
  ghost predicate NoTies<T>(le: (T, T) -> bool, xs: seq<T>) {
    forall a, b | a in xs && b in xs && le(a, b) && le(b, a) :: a == b
  }

  lemma SameMembers<T>(xs: seq<T>, ys: seq<T>, x: T)
    requires multiset(xs) == multiset(ys)
    ensures x in xs <==> x in ys
  {
    assert x in xs <==> x in multiset(xs);
    assert x in ys <==> x in multiset(ys);
  }

  lemma LastsEqual<T>(le: (T, T) -> bool, xs: seq<T>, ys: seq<T>)
    requires Ordered(le, xs) && Ordered(le, ys) && multiset(xs) == multiset(ys) && NoTies(le, xs)
    requires xs != [] && ys != []
    ensures xs[|xs| - 1] == ys[|ys| - 1]
  {
    var a, b := xs[|xs| - 1], ys[|ys| - 1];
    SameMembers(xs, ys, a);
    SameMembers(xs, ys, b);
  }

  lemma WithoutLast<T>(xs: seq<T>)
    requires xs != []
    ensures multiset(xs[..|xs| - 1]) == multiset(xs) - multiset{xs[|xs| - 1]}
  {
    assert xs == xs[..|xs| - 1] + [xs[|xs| - 1]];
  }

  /** Without ties between different elements there is one way to order them. */
  lemma {:induction false} OrderedUnique<T>(le: (T, T) -> bool, xs: seq<T>, ys: seq<T>)
    requires Ordered(le, xs) && Ordered(le, ys) && multiset(xs) == multiset(ys) && NoTies(le, xs)
    ensures xs == ys
  {
    hide Ordered, NoTies;
    SameLength(xs, ys);
    if xs != [] {
      LastsEqual(le, xs, ys);
      WithoutLast(xs);
      WithoutLast(ys);
      Shorter(le, xs);
      Shorter(le, ys);
      OrderedUnique(le, xs[..|xs| - 1], ys[..|ys| - 1]);
      assert xs == xs[..|xs| - 1] + [xs[|xs| - 1]] && ys == ys[..|ys| - 1] + [ys[|ys| - 1]];
    }
  }

  lemma SameLength<T>(xs: seq<T>, ys: seq<T>)
    requires multiset(xs) == multiset(ys)
    ensures |xs| == |ys|
  {
    assert |xs| == |multiset(xs)| && |ys| == |multiset(ys)|;
  }

  lemma Shorter<T>(le: (T, T) -> bool, xs: seq<T>)
    requires xs != [] && Ordered(le, xs)
    ensures Ordered(le, xs[..|xs| - 1])
    ensures NoTies(le, xs) ==> NoTies(le, xs[..|xs| - 1])
  {
    assert forall x | x in xs[..|xs| - 1] :: x in xs;
  }
}
