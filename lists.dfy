/** Small facts about Python lists that several modules share. */
module Lists {

  /** No element occurs twice. */
  predicate NoDuplicates<T(==)>(xs: seq<T>) {
    forall i, j :: 0 <= i < j < |xs| ==> xs[i] != xs[j]
  }

  /** The elements of a list as a set. */
  function Elements<T>(xs: seq<T>): set<T> {
    set x | x in xs
  }

  /** Keeps the first occurrence of every element: list(dict.fromkeys(xs)) in Python. */
  function Dedup<T(==)>(xs: seq<T>): (r: seq<T>)
    ensures NoDuplicates(r)
    ensures Elements(r) == Elements(xs)
    ensures |r| <= |xs|
  {
    if |xs| == 0 then []
    else
      var rest := Dedup(xs[..|xs| - 1]);
      var x := xs[|xs| - 1];
      assert Elements(xs) == Elements(xs[..|xs| - 1]) + {x} by {
        assert xs == xs[..|xs| - 1] + [x];
      }
      if x in rest then rest else rest + [x]
  }

  /** A list without duplicates has as many elements as its set. */
  lemma {:induction false} NoDuplicatesCard<T>(xs: seq<T>)
    requires NoDuplicates(xs)
    ensures |Elements(xs)| == |xs|
    decreases |xs|
  {
    if |xs| > 0 {
      var init := xs[..|xs| - 1];
      NoDuplicatesCard(init);
      assert xs == init + [xs[|xs| - 1]];
      assert Elements(xs) == Elements(init) + {xs[|xs| - 1]};
      assert xs[|xs| - 1] !in Elements(init);
    }
  }

  /** [x for x in xs if keep(x)]: the elements that pass, in their order. */
  function Filter<T>(keep: T -> bool, xs: seq<T>): seq<T> {
    if |xs| == 0 then []
    else Filter(keep, xs[..|xs| - 1]) + (if keep(xs[|xs| - 1]) then [xs[|xs| - 1]] else [])
  }

  lemma {:induction false} FilterMembers<T>(keep: T -> bool, xs: seq<T>)
    ensures forall x :: x in Filter(keep, xs) <==> x in xs && keep(x)
    ensures |Filter(keep, xs)| <= |xs|
    decreases |xs|
  {
    if |xs| > 0 {
      var init := xs[..|xs| - 1];
      FilterMembers(keep, init);
      assert xs == init + [xs[|xs| - 1]];
    }
  }

  lemma {:induction false} FilterAppend<T>(keep: T -> bool, a: seq<T>, b: seq<T>)
    ensures Filter(keep, a + b) == Filter(keep, a) + Filter(keep, b)
    decreases |b|
  {
    if |b| == 0 {
      assert a + b == a;
    } else {
      var init := b[..|b| - 1];
      FilterAppend(keep, a, init);
      assert (a + b)[..|a + b| - 1] == a + init && (a + b)[|a + b| - 1] == b[|b| - 1];
    }
  }

  lemma {:induction false} FilterIdempotent<T>(keep: T -> bool, xs: seq<T>)
    ensures Filter(keep, Filter(keep, xs)) == Filter(keep, xs)
    decreases |xs|
  {
    if |xs| > 0 {
      var init, last := xs[..|xs| - 1], xs[|xs| - 1];
      FilterIdempotent(keep, init);
      var p := Filter(keep, init);
      if keep(last) {
        assert Filter(keep, xs) == p + [last];
        FilterAppend(keep, p, [last]);
        assert [last][..0] == [];
        assert Filter(keep, [last]) == [last];
      } else {
        assert Filter(keep, xs) == p;
      }
    }
  }

  /** The lists f(x), for x in xs in order, concatenated. */
  function FlatMap<T, U>(f: T -> seq<U>, xs: seq<T>): seq<U> {
    if |xs| == 0 then [] else FlatMap(f, xs[..|xs| - 1]) + f(xs[|xs| - 1])
  }

  lemma FlatMapSingle<T, U>(f: T -> seq<U>, x: T)
    ensures FlatMap(f, [x]) == f(x)
  {
    assert [x][..0] == [];
    assert FlatMap(f, [x]) == FlatMap(f, []) + f(x);
  }

  lemma {:induction false} FlatMapAppend<T, U>(f: T -> seq<U>, a: seq<T>, b: seq<T>)
    ensures FlatMap(f, a + b) == FlatMap(f, a) + FlatMap(f, b)
    decreases |b|
  {
    if |b| == 0 {
      assert a + b == a;
    } else {
      var init := b[..|b| - 1];
      FlatMapAppend(f, a, init);
      assert (a + b)[..|a + b| - 1] == a + init && (a + b)[|a + b| - 1] == b[|b| - 1];
    }
  }
}
