/**
 * Sequences that enumerate a finite set once each. Python iterates a `set`
 * in an order of its own choosing; the model records such an order as a
 * sequence and states properties for every enumeration.
 */
module Enumerations {

  /** No element occurs twice. */
  predicate Distinct<T(==)>(xs: seq<T>) {
    forall i, j :: 0 <= i < j < |xs| ==> xs[i] != xs[j]
  }

  /** The set of elements of a sequence. */
  function Elements<T>(xs: seq<T>): set<T> {
    set x | x in xs
  }

  /** `xs` lists every element of `s` exactly once. */
  predicate IsEnumeration<T(==)>(xs: seq<T>, s: set<T>) {
    Distinct(xs) && Elements(xs) == s
  }

  /** A distinct sequence has as many elements as its set. */
  lemma {:induction false} DistinctCardinality<T>(xs: seq<T>)
    requires Distinct(xs)
    ensures |Elements(xs)| == |xs|
  {
    if xs != [] {
      var init := xs[..|xs| - 1];
      assert Distinct(init);
      DistinctCardinality(init);
      assert xs == init + [xs[|xs| - 1]];
      assert Elements(xs) == Elements(init) + {xs[|xs| - 1]};
      assert xs[|xs| - 1] !in Elements(init);
    }
  }

  /** Some element of a non-empty set. */
  lemma PickElement<T>(s: set<T>) returns (x: T)
    requires s != {}
    ensures x in s
  {
    x :| x in s;
  }

  /** Extending a distinct sequence by a fresh element keeps it distinct. */
  lemma AppendFresh<T>(xs: seq<T>, x: T)
    requires Distinct(xs) && x !in xs
    ensures Distinct(xs + [x]) && Elements(xs + [x]) == Elements(xs) + {x}
  {
  }

  /** Splitting the last element off a distinct sequence. */
  lemma DistinctSnoc<T>(xs: seq<T>)
    requires Distinct(xs) && |xs| > 0
    ensures Distinct(xs[..|xs| - 1])
    ensures xs[|xs| - 1] !in Elements(xs[..|xs| - 1])
    ensures Elements(xs) == Elements(xs[..|xs| - 1]) + {xs[|xs| - 1]}
  {
    assert xs == xs[..|xs| - 1] + [xs[|xs| - 1]];
  }

  /**
   * Picks the elements of `s` one at a time, in an order the model does not
   * fix, as a Python `for` over a set does.
   */
  method IterationOrder<T>(s: set<T>) returns (xs: seq<T>)
    ensures IsEnumeration(xs, s)
  {
    xs := [];
    var rest := s;
    while rest != {}
      invariant Distinct(xs)
      invariant Elements(xs) + rest == s
      invariant Elements(xs) !! rest
      decreases |rest|
    {
      var x :| x in rest;
      AppendFresh(xs, x);
      xs := xs + [x];
      rest := rest - {x};
    }
  }
}
