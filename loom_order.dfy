/** The orderings of Loom's rollback and re-execution (protocol/loom/common.h):
    `cmp` ranks hyper-vertices for the greedy priority queue, `idcmp` ranks
    sub-transactions by their string id, and `customCompare` ranks
    sub-transactions by the position of their hyper-vertex in a serial order. */
module LoomOrder {

  /** What `cmp` reads of a hyper-vertex: its rollback cost and its id. */
  datatype Ranked = Ranked(cost: real, hyperId: int)

  /** What `idcmp` and `customCompare` read of a sub-transaction: the id of its
      hyper-vertex and its own string id. */
  datatype VertexKey = VertexKey(hyperId: int, id: string)

  /** cmp: cheaper first; at equal cost the smaller hyper-id first. */
  predicate Cmp(a: Ranked, b: Ranked) {
    if a.cost == b.cost then a.hyperId < b.hyperId else a.cost < b.cost
  }

  /** `cmp` is a strict total order on hyper-vertices with distinct ids, which is
      what a `std::set` keyed by it needs. */
  lemma CmpStrictTotal(a: Ranked, b: Ranked, c: Ranked)
    ensures !Cmp(a, a)
    ensures Cmp(a, b) ==> !Cmp(b, a)
    ensures Cmp(a, b) && Cmp(b, c) ==> Cmp(a, c)
    ensures a.hyperId != b.hyperId ==> Cmp(a, b) || Cmp(b, a)
  {
  }

  /** The head of a set ordered by `cmp` (hyper-vertices with distinct ids) is
      exactly its cheapest member, the one with the smallest id among equally
      cheap ones: `a` comes before every other member iff no member costs less
      and no member of equal cost has a smaller id. */
  lemma CmpFirstIsCheapest(s: set<Ranked>, a: Ranked)
    requires a in s
    requires forall b, c :: b in s && c in s && b.hyperId == c.hyperId ==> b == c
    ensures (forall b :: b in s && b != a ==> Cmp(a, b)) <==>
      (forall b :: b in s ==> a.cost <= b.cost && (b.cost == a.cost ==> a.hyperId <= b.hyperId))
  {
  }

  /** Every non-empty set of hyper-vertices with distinct ids has a head
      under `cmp`, so `pq.begin()` of a non-empty queue is defined. */
  lemma {:induction false} CmpHasFirst(s: set<Ranked>)
    requires s != {}
    requires forall b, c :: b in s && c in s && b.hyperId == c.hyperId ==> b == c
    ensures exists a :: a in s && forall b :: b in s && b != a ==> Cmp(a, b)
    decreases |s|
  {
    var x :| x in s;
    if s != {x} {
      CmpHasFirst(s - {x});
      var y :| y in s - {x} && forall b :: b in s - {x} && b != y ==> Cmp(y, b);
      if Cmp(x, y) {
        forall b | b in s && b != x
          ensures Cmp(x, b)
        {
          CmpStrictTotal(x, y, b);
        }
      } else {
        CmpStrictTotal(y, x, x);
        assert forall b :: b in s && b != y ==> Cmp(y, b);
      }
    }
  }

  /** `std::string`'s `<`: lexicographic by character, a proper prefix first. */
  predicate StrLess(a: string, b: string)
    decreases |a|
  {
    if |a| == 0 then |b| > 0
    else if |b| == 0 then false
    else if a[0] != b[0] then a[0] < b[0]
    else StrLess(a[1..], b[1..])
  }

  lemma {:induction false} StrLessIrreflexive(a: string)
    ensures !StrLess(a, a)
    decreases |a|
  {
    if |a| > 0 {
      StrLessIrreflexive(a[1..]);
    }
  }

  lemma {:induction false} StrLessTransitive(a: string, b: string, c: string)
    requires StrLess(a, b) && StrLess(b, c)
    ensures StrLess(a, c)
    decreases |a|
  {
    if |a| > 0 && a[0] == b[0] && b[0] == c[0] {
      StrLessTransitive(a[1..], b[1..], c[1..]);
    }
  }

  lemma {:induction false} StrLessTotal(a: string, b: string)
    ensures a == b || StrLess(a, b) || StrLess(b, a)
    ensures !(StrLess(a, b) && StrLess(b, a))
    decreases |a|
  {
    if |a| > 0 && |b| > 0 && a[0] == b[0] {
      StrLessTotal(a[1..], b[1..]);
      if a[1..] == b[1..] {
        assert a == [a[0]] + a[1..] && b == [b[0]] + b[1..];
      }
    }
  }

  /** A proper prefix sorts before the longer string. */
  lemma {:induction false} PrefixIsLess(a: string, b: string)
    requires |a| < |b| && a == b[..|a|]
    ensures StrLess(a, b)
    decreases |a|
  {
    if |a| > 0 {
      assert a[1..] == b[1..][..|a| - 1];
      PrefixIsLess(a[1..], b[1..]);
    }
  }

  /** idcmp: the larger string id first. */
  predicate IdCmp(a: VertexKey, b: VertexKey) {
    StrLess(b.id, a.id)
  }

  /** `idcmp` is a strict total order on sub-transactions with distinct ids. */
  lemma IdCmpStrictTotal(a: VertexKey, b: VertexKey, c: VertexKey)
    ensures !IdCmp(a, a)
    ensures IdCmp(a, b) && IdCmp(b, c) ==> IdCmp(a, c)
    ensures a.id != b.id ==> (IdCmp(a, b) || IdCmp(b, a)) && !(IdCmp(a, b) && IdCmp(b, a))
  {
    StrLessIrreflexive(a.id);
    StrLessTotal(a.id, b.id);
    if IdCmp(a, b) && IdCmp(b, c) {
      StrLessTransitive(c.id, b.id, a.id);
    }
  }

  /** The customCompare constructor: idToOrder[serialOrder[i]] = i for i in
      order, so a hyper-id that occurs twice keeps its LAST position. */
  method BuildOrderIndex(serialOrder: seq<int>) returns (idToOrder: map<int, int>)
    ensures idToOrder.Keys == set i | 0 <= i < |serialOrder| :: serialOrder[i]
    ensures forall h :: h in idToOrder ==>
      0 <= idToOrder[h] < |serialOrder| && serialOrder[idToOrder[h]] == h &&
      forall j :: idToOrder[h] < j < |serialOrder| ==> serialOrder[j] != h
  {
    idToOrder := map[];
    var i := 0;
    while i < |serialOrder|
      invariant 0 <= i <= |serialOrder|
      invariant idToOrder.Keys == set k | 0 <= k < i :: serialOrder[k]
      invariant forall h :: h in idToOrder ==>
        0 <= idToOrder[h] < i && serialOrder[idToOrder[h]] == h &&
        forall j :: idToOrder[h] < j < i ==> serialOrder[j] != h
    {
      idToOrder := idToOrder[serialOrder[i] := i];
      i := i + 1;
    }
  }

  /** customCompare: earlier position of the hyper-vertex first; inside one
      hyper-vertex the larger string id first.  `.at` throws for a hyper-id that
      is not in the serial order, so both must be present. */
  predicate CustomLess(idToOrder: map<int, int>, a: VertexKey, b: VertexKey)
    requires a.hyperId in idToOrder && b.hyperId in idToOrder
  {
    var aIdx := idToOrder[a.hyperId];
    var bIdx := idToOrder[b.hyperId];
    if aIdx != bIdx then aIdx < bIdx else StrLess(b.id, a.id)
  }

  /** `customCompare` is a strict total order on sub-transactions with distinct
      ids whose hyper-vertices are in the serial order; every sub-transaction of
      a hyper-vertex placed earlier comes before every one placed later. */
  lemma CustomLessStrictTotal(idToOrder: map<int, int>, a: VertexKey, b: VertexKey, c: VertexKey)
    requires a.hyperId in idToOrder && b.hyperId in idToOrder && c.hyperId in idToOrder
    ensures !CustomLess(idToOrder, a, a)
    ensures CustomLess(idToOrder, a, b) && CustomLess(idToOrder, b, c) ==> CustomLess(idToOrder, a, c)
    ensures a.id != b.id ==> CustomLess(idToOrder, a, b) || CustomLess(idToOrder, b, a)
    ensures CustomLess(idToOrder, a, b) ==> !CustomLess(idToOrder, b, a)
    ensures idToOrder[a.hyperId] < idToOrder[b.hyperId] ==> CustomLess(idToOrder, a, b)
  {
    StrLessIrreflexive(a.id);
    StrLessTotal(a.id, b.id);
    if CustomLess(idToOrder, a, b) && CustomLess(idToOrder, b, c) {
      if idToOrder[a.hyperId] == idToOrder[b.hyperId] == idToOrder[c.hyperId] {
        StrLessTransitive(c.id, b.id, a.id);
      }
    }
  }
}
