/** The set predicates every protocol shares (protocol/common.h).  The source's
    concurrent hash sets and maps become Dafny's finite `set` and `map`; each
    predicate keeps the source's scan over one of its arguments, and its
    contract states the set relation the scan decides. */
module SetOps {

  /** Cardinality facts the early size checks of `HasContain` and `AreEqual`
      rely on: a subset is no larger, and a subset of the same size is equal. */
  lemma {:induction false} SubsetCardinality<T>(a: set<T>, b: set<T>)
    requires a <= b
    ensures |a| <= |b|
    ensures |a| == |b| ==> a == b
  {
    if a != {} {
      var x :| x in a;
      SubsetCardinality(a - {x}, b - {x});
      if |a| == |b| {
        assert a == (a - {x}) + {x};
        assert b == (b - {x}) + {x};
      }
    }
  }

  /** hasIntersection: walks set2 and raises a flag at the first element of set1
      it meets; the walk stops once the flag is up. */
  method HasIntersection<T(==)>(set1: set<T>, set2: set<T>) returns (found: bool)
    ensures found <==> set1 * set2 != {}
  {
    found := false;
    var rest := set2;
    while rest != {} && !found
      invariant rest <= set2
      invariant found <==> exists x :: x in set2 - rest && x in set1
      decreases rest
    {
      var x :| x in rest;
      if x in set1 {
        found := true;
      }
      rest := rest - {x};
    }
    if found {
      var x :| x in set2 - rest && x in set1;
      assert x in set1 * set2;
    } else {
      assert set2 - rest == set2;
      assert forall x :: x in set1 * set2 ==> x in set2 - rest && x in set1;
    }
  }

  /** hasConflict: true as soon as some element of set2 lies in set1 (the read
      set / write set test of every protocol). */
  method HasConflict<T(==)>(set1: set<T>, set2: set<T>) returns (r: bool)
    ensures r <==> exists x :: x in set2 && x in set1
  {
    var rest := set2;
    while rest != {}
      invariant rest <= set2
      invariant forall x :: x in set2 - rest ==> x !in set1
      decreases rest
    {
      var x :| x in rest;
      if x in set1 {
        return true;
      }
      rest := rest - {x};
    }
    assert set2 - rest == set2;
    return false;
  }

  /** hasContain (set overload): false at once when set1 is smaller than set2,
      otherwise false at the first element of set2 missing from set1. */
  method HasContain<T(==)>(set1: set<T>, set2: set<T>) returns (r: bool)
    ensures r <==> set2 <= set1
  {
    if |set1| < |set2| {
      if set2 <= set1 {
        SubsetCardinality(set2, set1);
      }
      return false;
    }
    var rest := set2;
    while rest != {}
      invariant rest <= set2
      invariant set2 - rest <= set1
      decreases rest
    {
      var x :| x in rest;
      if x !in set1 {
        return false;
      }
      rest := rest - {x};
    }
    assert set2 - rest == set2;
    return true;
  }

  /** hasContain (map overload): whether set1 holds every key of map2, with the
      same early size check. */
  method HasContainKeys<T(==), U>(set1: set<T>, map2: map<T, U>) returns (r: bool)
    ensures r <==> map2.Keys <= set1
  {
    if |set1| < |map2| {
      if map2.Keys <= set1 {
        SubsetCardinality(map2.Keys, set1);
      }
      return false;
    }
    var rest := map2.Keys;
    while rest != {}
      invariant rest <= map2.Keys
      invariant map2.Keys - rest <= set1
      decreases rest
    {
      var x :| x in rest;
      if x !in set1 {
        return false;
      }
      rest := rest - {x};
    }
    assert map2.Keys - rest == map2.Keys;
    return true;
  }

  /** areEqual: equal sizes, then every element of set1 must be in set2.  The
      size check plus the inclusion is exactly set equality. */
  method AreEqual<T(==)>(set1: set<T>, set2: set<T>) returns (r: bool)
    ensures r <==> |set1| == |set2| && set1 <= set2
    ensures r <==> set1 == set2
  {
    if |set1| != |set2| {
      return false;
    }
    r := true;
    var rest := set1;
    while rest != {}
      invariant rest <= set1
      invariant r <==> set1 - rest <= set2
      decreases rest
    {
      var x :| x in rest;
      if x !in set2 {
        r := false;
      }
      rest := rest - {x};
    }
    assert set1 - rest == set1;
    if r {
      SubsetCardinality(set1, set2);
    }
  }

  /** diff: the elements of cascadeVertices that are not in rollbackVertex. */
  method Diff<T(==)>(cascadeVertices: set<T>, rollbackVertex: set<T>) returns (d: set<T>)
    ensures forall x :: x in d <==> x in cascadeVertices && x !in rollbackVertex
    ensures d + (cascadeVertices * rollbackVertex) == cascadeVertices
  {
    d := {};
    var rest := cascadeVertices;
    while rest != {}
      invariant rest <= cascadeVertices
      invariant forall x :: x in d <==> x in cascadeVertices - rest && x !in rollbackVertex
      decreases rest
    {
      var x :| x in rest;
      if x !in rollbackVertex {
        d := d + {x};
      }
      rest := rest - {x};
    }
  }
}
