/** Small facts about sequences and sets that several handlers' models share. */
module Collections {

  /** The set of elements of a list. */
  function Elems<T>(xs: seq<T>): set<T> {
    set x | x in xs
  }

  /** One more element of the list adds one element to its set: the step of the loops that collect ids. */
  lemma ElemsSnoc<T>(xs: seq<T>, n: nat)
    requires n < |xs|
    ensures Elems(xs[..n + 1]) == Elems(xs[..n]) + {xs[n]}
  {
    assert xs[..n + 1] == xs[..n] + [xs[n]];
  }

  /** No element occurs twice. */
  predicate Distinct<T(==)>(xs: seq<T>) {
    forall i, j :: 0 <= i < j < |xs| ==> xs[i] != xs[j]
  }

  /** Some element of a non-empty set: the next id of a loop whose order the source does not fix. */
  method Pick<T>(xs: set<T>) returns (x: T)
    requires xs != {}
    ensures x in xs
  {
    x :| x in xs;
  }

  lemma SubsetCard<T>(a: set<T>, b: set<T>)
    requires a <= b
    ensures |a| <= |b|
  {
    assert b == a + (b - a);
  }

  /** A set splits into the part outside `p` and the part inside it. */
  lemma SplitCard<T>(a: set<T>, p: set<T>)
    ensures |a - p| + |a * p| == |a|
  {
    assert a == (a - p) + (a * p);
    assert (a - p) * (a * p) == {};
  }

  /**
   * `INSERT ... ON CONFLICT (key) DO UPDATE`: the table keeps one entry per key,
   * the new value replaces the old one and no other entry changes.
   */
  function Upsert<K, V>(m: map<K, V>, k: K, v: V): (r: map<K, V>)
    ensures r.Keys == m.Keys + {k}
    ensures r[k] == v
    ensures forall x :: x in m && x != k ==> r[x] == m[x]
  {
    m[k := v]
  }
}
