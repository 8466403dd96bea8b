/** FabricPP (protocol/fabricPP/FabricPP.cpp): the baseline that builds a
    dependency graph over whole transactions, finds its strongly connected
    components with Tarjan's search, and breaks every cycle by rolling back,
    again and again, the vertex that lies in the most remaining cycles.

    Vertices are transaction ids.  An edge x -> y means that x reads a key y
    writes: a read-write conflict of a new vertex with an older one gives
    new -> old, a write-read conflict gives old -> new, so both kinds are
    edges from the reader to the writer. */
module FabricPP {
  import SetOps
  import opened Scc

  /** The keys of vertex `x` in a read or write set table. */
  function Keys(table: map<nat, set<string>>, x: nat): set<string> {
    if x in table then table[x] else {}
  }

  /** `x` reads a key that `y` writes. */
  predicate Conflict(readSet: map<nat, set<string>>, writeSet: map<nat, set<string>>, x: nat, y: nat) {
    Keys(readSet, x) * Keys(writeSet, y) != {}
  }

  /** The edge x -> y of the graph over `vs`. */
  predicate Edge(readSet: map<nat, set<string>>, writeSet: map<nat, set<string>>, vs: set<nat>, x: nat, y: nat) {
    x in vs && y in vs && x != y && Conflict(readSet, writeSet, x, y)
  }

  /** m_degree of `x`; a vertex starts at 0. */
  function Deg(degree: map<nat, int>, x: nat): int {
    if x in degree then degree[x] else 0
  }

  /** `degree` with the degree of `x` one higher. */
  function Bump(degree: map<nat, int>, x: nat): (r: map<nat, int>)
    ensures Deg(r, x) == Deg(degree, x) + 1
    ensures forall y :: y != x ==> Deg(r, y) == Deg(degree, y)
  {
    degree[x := Deg(degree, x) + 1]
  }

  /** The graph over `vs` has exactly the conflict edges, in-edges mirror
      out-edges, and every degree counts the vertex's edges. */
  ghost predicate GraphOk(readSet: map<nat, set<string>>, writeSet: map<nat, set<string>>, vs: set<nat>,
                          outEdges: map<nat, set<nat>>, inEdges: map<nat, set<nat>>, degree: map<nat, int>)
  {
    && (forall x, y :: y in Out(outEdges, x) <==> Edge(readSet, writeSet, vs, x, y))
    && (forall x, y :: y in Out(inEdges, x) <==> Edge(readSet, writeSet, vs, y, x))
    && (forall x :: Deg(degree, x) == |Out(outEdges, x)| + |Out(inEdges, x)|)
  }

  /** An edge of the graph over `vs` and `newV` that the inner loop has
      already found: an out-edge of `newV` goes to a vertex of `doneRw` (its
      read-write check is done), an in-edge comes from a vertex of `doneWr`
      (its write-read check is done). */
  predicate Linked(readSet: map<nat, set<string>>, writeSet: map<nat, set<string>>, vs: set<nat>,
                   doneRw: set<nat>, doneWr: set<nat>, newV: nat, x: nat, y: nat) {
    && Edge(readSet, writeSet, vs + {newV}, x, y)
    && (x == newV ==> y in doneRw)
    && (y == newV ==> x in doneWr)
  }

  /** The out-edges in `outEdges` are exactly the edges found so far. */
  ghost predicate OutLinked(readSet: map<nat, set<string>>, writeSet: map<nat, set<string>>, vs: set<nat>,
                            doneRw: set<nat>, doneWr: set<nat>, newV: nat, outEdges: map<nat, set<nat>>)
  {
    forall x, y :: y in Out(outEdges, x) <==> Linked(readSet, writeSet, vs, doneRw, doneWr, newV, x, y)
  }

  /** The in-edges in `inEdges` are exactly the edges found so far, reversed. */
  ghost predicate InLinked(readSet: map<nat, set<string>>, writeSet: map<nat, set<string>>, vs: set<nat>,
                           doneRw: set<nat>, doneWr: set<nat>, newV: nat, inEdges: map<nat, set<nat>>)
  {
    forall x, y :: y in Out(inEdges, x) <==> Linked(readSet, writeSet, vs, doneRw, doneWr, newV, y, x)
  }

  /** Every degree counts the vertex's out- and in-edges. */
  ghost predicate Degrees(outEdges: map<nat, set<nat>>, inEdges: map<nat, set<nat>>, degree: map<nat, int>) {
    forall x :: Deg(degree, x) == |Out(outEdges, x)| + |Out(inEdges, x)|
  }

  /** The inner loop of buildGraph part done. */
  ghost predicate Linking(readSet: map<nat, set<string>>, writeSet: map<nat, set<string>>, vs: set<nat>,
                          doneRw: set<nat>, doneWr: set<nat>, newV: nat,
                          outEdges: map<nat, set<nat>>, inEdges: map<nat, set<nat>>, degree: map<nat, int>)
  {
    && OutLinked(readSet, writeSet, vs, doneRw, doneWr, newV, outEdges)
    && InLinked(readSet, writeSet, vs, doneRw, doneWr, newV, inEdges)
    && Degrees(outEdges, inEdges, degree)
  }

  lemma StartLinking(readSet: map<nat, set<string>>, writeSet: map<nat, set<string>>, vs: set<nat>, newV: nat,
                     outEdges: map<nat, set<nat>>, inEdges: map<nat, set<nat>>, degree: map<nat, int>)
    requires GraphOk(readSet, writeSet, vs, outEdges, inEdges, degree) && newV !in vs
    ensures Linking(readSet, writeSet, vs, {}, {}, newV, outEdges, inEdges, degree)
  {
    assert forall x, y :: Linked(readSet, writeSet, vs, {}, {}, newV, x, y) <==> Edge(readSet, writeSet, vs, x, y);
  }

  lemma EndLinking(readSet: map<nat, set<string>>, writeSet: map<nat, set<string>>, vs: set<nat>, newV: nat,
                   outEdges: map<nat, set<nat>>, inEdges: map<nat, set<nat>>, degree: map<nat, int>)
    requires Linking(readSet, writeSet, vs, vs, vs, newV, outEdges, inEdges, degree) && newV !in vs
    ensures GraphOk(readSet, writeSet, vs + {newV}, outEdges, inEdges, degree)
  {
    assert forall x, y :: Linked(readSet, writeSet, vs, vs, vs, newV, x, y) <==> Edge(readSet, writeSet, vs + {newV}, x, y);
  }

  /** Adding the edge a -> b to both adjacency maps and to both degrees keeps
      every degree equal to the vertex's edge count. */
  lemma AddDegrees(outEdges: map<nat, set<nat>>, inEdges: map<nat, set<nat>>, degree: map<nat, int>, a: nat, b: nat)
    requires Degrees(outEdges, inEdges, degree)
    requires a != b && b !in Out(outEdges, a) && a !in Out(inEdges, b)
    ensures Degrees(outEdges[a := Out(outEdges, a) + {b}], inEdges[b := Out(inEdges, b) + {a}],
                    Bump(Bump(degree, a), b))
  {
    forall x
      ensures Deg(Bump(Bump(degree, a), b), x) ==
        |Out(outEdges[a := Out(outEdges, a) + {b}], x)| + |Out(inEdges[b := Out(inEdges, b) + {a}], x)|
    {
      AddDegreesAt(outEdges, inEdges, degree, a, b, x);
    }
  }

  /** The same, for one vertex `x`. */
  lemma AddDegreesAt(outEdges: map<nat, set<nat>>, inEdges: map<nat, set<nat>>, degree: map<nat, int>,
                     a: nat, b: nat, x: nat)
    requires Deg(degree, x) == |Out(outEdges, x)| + |Out(inEdges, x)|
    requires a != b && b !in Out(outEdges, a) && a !in Out(inEdges, b)
    ensures Deg(Bump(Bump(degree, a), b), x) ==
      |Out(outEdges[a := Out(outEdges, a) + {b}], x)| + |Out(inEdges[b := Out(inEdges, b) + {a}], x)|
  {
    OutAfter(outEdges, a, b, x);
    OutAfter(inEdges, b, a, x);
  }

  /** The adjacency set of `x` after adding the edge a -> b to `m`. */
  lemma OutAfter(m: map<nat, set<nat>>, a: nat, b: nat, x: nat)
    requires b !in Out(m, a)
    ensures |Out(m[a := Out(m, a) + {b}], x)| == |Out(m, x)| + (if x == a then 1 else 0)
  {
    if x != a {
      assert Out(m[a := Out(m, a) + {b}], x) == Out(m, x);
    }
  }

  /** A read-write conflict of `newV` with `oldV` found: newV -> oldV. */
  lemma FoundReadWrite(readSet: map<nat, set<string>>, writeSet: map<nat, set<string>>, vs: set<nat>,
                       doneRw: set<nat>, doneWr: set<nat>, newV: nat, oldV: nat,
                       outEdges: map<nat, set<nat>>, inEdges: map<nat, set<nat>>)
    requires OutLinked(readSet, writeSet, vs, doneRw, doneWr, newV, outEdges)
    requires InLinked(readSet, writeSet, vs, doneRw, doneWr, newV, inEdges)
    requires newV !in vs && oldV in vs && Conflict(readSet, writeSet, newV, oldV)
    ensures OutLinked(readSet, writeSet, vs, doneRw + {oldV}, doneWr, newV, outEdges[newV := Out(outEdges, newV) + {oldV}])
    ensures InLinked(readSet, writeSet, vs, doneRw + {oldV}, doneWr, newV, inEdges[oldV := Out(inEdges, oldV) + {newV}])
  {
    var out', in' := outEdges[newV := Out(outEdges, newV) + {oldV}], inEdges[oldV := Out(inEdges, oldV) + {newV}];
    forall x, y
      ensures y in Out(out', x) <==> Linked(readSet, writeSet, vs, doneRw + {oldV}, doneWr, newV, x, y)
    {
      if x == newV && y == oldV {
      } else {
        assert Linked(readSet, writeSet, vs, doneRw + {oldV}, doneWr, newV, x, y) <==>
               Linked(readSet, writeSet, vs, doneRw, doneWr, newV, x, y);
      }
    }
    forall x, y
      ensures y in Out(in', x) <==> Linked(readSet, writeSet, vs, doneRw + {oldV}, doneWr, newV, y, x)
    {
      if x == oldV && y == newV {
      } else {
        assert Linked(readSet, writeSet, vs, doneRw + {oldV}, doneWr, newV, y, x) <==>
               Linked(readSet, writeSet, vs, doneRw, doneWr, newV, y, x);
      }
    }
  }

  /** A write-read conflict of `newV` with `oldV` found: oldV -> newV. */
  lemma FoundWriteRead(readSet: map<nat, set<string>>, writeSet: map<nat, set<string>>, vs: set<nat>,
                       doneRw: set<nat>, doneWr: set<nat>, newV: nat, oldV: nat,
                       outEdges: map<nat, set<nat>>, inEdges: map<nat, set<nat>>)
    requires OutLinked(readSet, writeSet, vs, doneRw, doneWr, newV, outEdges)
    requires InLinked(readSet, writeSet, vs, doneRw, doneWr, newV, inEdges)
    requires newV !in vs && oldV in vs && Conflict(readSet, writeSet, oldV, newV)
    ensures OutLinked(readSet, writeSet, vs, doneRw, doneWr + {oldV}, newV, outEdges[oldV := Out(outEdges, oldV) + {newV}])
    ensures InLinked(readSet, writeSet, vs, doneRw, doneWr + {oldV}, newV, inEdges[newV := Out(inEdges, newV) + {oldV}])
  {
    var out', in' := outEdges[oldV := Out(outEdges, oldV) + {newV}], inEdges[newV := Out(inEdges, newV) + {oldV}];
    forall x, y
      ensures y in Out(out', x) <==> Linked(readSet, writeSet, vs, doneRw, doneWr + {oldV}, newV, x, y)
    {
      if x == oldV && y == newV {
      } else {
        assert Linked(readSet, writeSet, vs, doneRw, doneWr + {oldV}, newV, x, y) <==>
               Linked(readSet, writeSet, vs, doneRw, doneWr, newV, x, y);
      }
    }
    forall x, y
      ensures y in Out(in', x) <==> Linked(readSet, writeSet, vs, doneRw, doneWr + {oldV}, newV, y, x)
    {
      if x == newV && y == oldV {
      } else {
        assert Linked(readSet, writeSet, vs, doneRw, doneWr + {oldV}, newV, y, x) <==>
               Linked(readSet, writeSet, vs, doneRw, doneWr, newV, y, x);
      }
    }
  }

  /** No read-write conflict of `newV` with `oldV`: the edges found so far
      are the same with `oldV` checked. */
  lemma NoReadWrite(readSet: map<nat, set<string>>, writeSet: map<nat, set<string>>, vs: set<nat>,
                    doneRw: set<nat>, doneWr: set<nat>, newV: nat, oldV: nat,
                    outEdges: map<nat, set<nat>>, inEdges: map<nat, set<nat>>)
    requires OutLinked(readSet, writeSet, vs, doneRw, doneWr, newV, outEdges)
    requires InLinked(readSet, writeSet, vs, doneRw, doneWr, newV, inEdges)
    requires !Conflict(readSet, writeSet, newV, oldV)
    ensures OutLinked(readSet, writeSet, vs, doneRw + {oldV}, doneWr, newV, outEdges)
    ensures InLinked(readSet, writeSet, vs, doneRw + {oldV}, doneWr, newV, inEdges)
  {
    assert forall x, y :: Linked(readSet, writeSet, vs, doneRw + {oldV}, doneWr, newV, x, y) <==>
                          Linked(readSet, writeSet, vs, doneRw, doneWr, newV, x, y);
  }

  /** No write-read conflict of `newV` with `oldV`: the edges found so far
      are the same with `oldV` checked. */
  lemma NoWriteRead(readSet: map<nat, set<string>>, writeSet: map<nat, set<string>>, vs: set<nat>,
                    doneRw: set<nat>, doneWr: set<nat>, newV: nat, oldV: nat,
                    outEdges: map<nat, set<nat>>, inEdges: map<nat, set<nat>>)
    requires OutLinked(readSet, writeSet, vs, doneRw, doneWr, newV, outEdges)
    requires InLinked(readSet, writeSet, vs, doneRw, doneWr, newV, inEdges)
    requires !Conflict(readSet, writeSet, oldV, newV)
    ensures OutLinked(readSet, writeSet, vs, doneRw, doneWr + {oldV}, newV, outEdges)
    ensures InLinked(readSet, writeSet, vs, doneRw, doneWr + {oldV}, newV, inEdges)
  {
    assert forall x, y :: Linked(readSet, writeSet, vs, doneRw, doneWr + {oldV}, newV, x, y) <==>
                          Linked(readSet, writeSet, vs, doneRw, doneWr, newV, x, y);
  }

  /** The read-write check of `newV` against the older `oldV`: when `newV`
      reads a key `oldV` writes, newV -> oldV is linked and both degrees
      go up. */
  method LinkReadWrite(readSet: map<nat, set<string>>, writeSet: map<nat, set<string>>, vs: set<nat>,
                       doneRw: set<nat>, doneWr: set<nat>, newV: nat, oldV: nat,
                       outEdges: map<nat, set<nat>>, inEdges: map<nat, set<nat>>, degree: map<nat, int>)
    returns (outEdges': map<nat, set<nat>>, inEdges': map<nat, set<nat>>, degree': map<nat, int>)
    requires Linking(readSet, writeSet, vs, doneRw, doneWr, newV, outEdges, inEdges, degree)
    requires newV !in vs && oldV in vs && oldV !in doneRw
    ensures Linking(readSet, writeSet, vs, doneRw + {oldV}, doneWr, newV, outEdges', inEdges', degree')
  {
    outEdges', inEdges', degree' := outEdges, inEdges, degree;
    var rw := SetOps.HasConflict(Keys(readSet, newV), Keys(writeSet, oldV));
    assert rw <==> Conflict(readSet, writeSet, newV, oldV) by {
      if rw {
        var k :| k in Keys(writeSet, oldV) && k in Keys(readSet, newV);
        assert k in Keys(readSet, newV) * Keys(writeSet, oldV);
      }
    }
    if rw {
      assert !Linked(readSet, writeSet, vs, doneRw, doneWr, newV, newV, oldV);
      AddDegrees(outEdges, inEdges, degree, newV, oldV);
      FoundReadWrite(readSet, writeSet, vs, doneRw, doneWr, newV, oldV, outEdges, inEdges);
      outEdges' := outEdges[newV := Out(outEdges, newV) + {oldV}];
      inEdges' := inEdges[oldV := Out(inEdges, oldV) + {newV}];
      degree' := Bump(Bump(degree, newV), oldV);
    } else {
      NoReadWrite(readSet, writeSet, vs, doneRw, doneWr, newV, oldV, outEdges, inEdges);
    }
  }

  /** The write-read check of `newV` against the older `oldV`: when `oldV`
      reads a key `newV` writes, oldV -> newV is linked and both degrees
      go up. */
  method LinkWriteRead(readSet: map<nat, set<string>>, writeSet: map<nat, set<string>>, vs: set<nat>,
                       doneRw: set<nat>, doneWr: set<nat>, newV: nat, oldV: nat,
                       outEdges: map<nat, set<nat>>, inEdges: map<nat, set<nat>>, degree: map<nat, int>)
    returns (outEdges': map<nat, set<nat>>, inEdges': map<nat, set<nat>>, degree': map<nat, int>)
    requires Linking(readSet, writeSet, vs, doneRw, doneWr, newV, outEdges, inEdges, degree)
    requires newV !in vs && oldV in vs && oldV !in doneWr
    ensures Linking(readSet, writeSet, vs, doneRw, doneWr + {oldV}, newV, outEdges', inEdges', degree')
  {
    outEdges', inEdges', degree' := outEdges, inEdges, degree;
    var wr := SetOps.HasConflict(Keys(writeSet, newV), Keys(readSet, oldV));
    assert wr <==> Conflict(readSet, writeSet, oldV, newV) by {
      if wr {
        var k :| k in Keys(readSet, oldV) && k in Keys(writeSet, newV);
        assert k in Keys(readSet, oldV) * Keys(writeSet, newV);
      }
    }
    if wr {
      assert !Linked(readSet, writeSet, vs, doneRw, doneWr, newV, oldV, newV);
      AddDegrees(outEdges, inEdges, degree, oldV, newV);
      FoundWriteRead(readSet, writeSet, vs, doneRw, doneWr, newV, oldV, outEdges, inEdges);
      outEdges' := outEdges[oldV := Out(outEdges, oldV) + {newV}];
      inEdges' := inEdges[newV := Out(inEdges, newV) + {oldV}];
      degree' := Bump(Bump(degree, oldV), newV);
    } else {
      NoWriteRead(readSet, writeSet, vs, doneRw, doneWr, newV, oldV, outEdges, inEdges);
    }
  }

  /** The inner loop of buildGraph: `newV` is compared with every vertex
      already in the graph, after which it belongs to the graph. */
  method LinkNew(readSet: map<nat, set<string>>, writeSet: map<nat, set<string>>, vs: set<nat>, newV: nat,
                 outEdges: map<nat, set<nat>>, inEdges: map<nat, set<nat>>, degree: map<nat, int>)
    returns (outEdges': map<nat, set<nat>>, inEdges': map<nat, set<nat>>, degree': map<nat, int>)
    requires GraphOk(readSet, writeSet, vs, outEdges, inEdges, degree) && newV !in vs
    ensures GraphOk(readSet, writeSet, vs + {newV}, outEdges', inEdges', degree')
  {
    outEdges', inEdges', degree' := outEdges, inEdges, degree;
    StartLinking(readSet, writeSet, vs, newV, outEdges, inEdges, degree);
    var rest := vs;
    while rest != {}
      invariant rest <= vs
      invariant Linking(readSet, writeSet, vs, vs - rest, vs - rest, newV, outEdges', inEdges', degree')
      decreases rest
    {
      var oldV :| oldV in rest;
      var done := vs - rest;
      outEdges', inEdges', degree' := LinkReadWrite(readSet, writeSet, vs, done, done, newV, oldV, outEdges', inEdges', degree');
      outEdges', inEdges', degree' := LinkWriteRead(readSet, writeSet, vs, done + {oldV}, done, newV, oldV, outEdges', inEdges', degree');
      assert done + {oldV} == vs - (rest - {oldV});
      rest := rest - {oldV};
    }
    EndLinking(readSet, writeSet, vs, newV, outEdges', inEdges', degree');
  }

  /** How many cycles of `cs` contain `w`. */
  function Count(cs: seq<set<nat>>, w: nat): nat {
    if cs == [] then 0 else Count(cs[..|cs| - 1], w) + (if w in cs[|cs| - 1] then 1 else 0)
  }

  lemma {:induction false} CountAppend(a: seq<set<nat>>, b: seq<set<nat>>, w: nat)
    ensures Count(a + b, w) == Count(a, w) + Count(b, w)
    decreases |b|
  {
    if b == [] {
      assert a + b == a;
    } else {
      assert (a + b)[..|a + b| - 1] == a + b[..|b| - 1];
      CountAppend(a, b[..|b| - 1], w);
    }
  }

  lemma {:induction false} UnionAppend(a: seq<set<nat>>, b: seq<set<nat>>)
    ensures Union(a + b) == Union(a) + Union(b)
    decreases |b|
  {
    if b == [] {
      assert a + b == a;
    } else {
      assert (a + b)[..|a + b| - 1] == a + b[..|b| - 1];
      UnionAppend(a, b[..|b| - 1]);
    }
  }

  /** A vertex is counted in some cycle exactly when it lies in one. */
  lemma {:induction false} CountPositive(cs: seq<set<nat>>, w: nat)
    ensures Count(cs, w) > 0 <==> w in Union(cs)
    decreases |cs|
  {
    if cs != [] {
      CountPositive(cs[..|cs| - 1], w);
    }
  }

  /** m_cycle_num of `w`; a vertex starts at 0. */
  function Num(cnt: map<nat, nat>, w: nat): nat {
    if w in cnt then cnt[w] else 0
  }

  /** Every vertex of a remaining cycle carries its number of remaining
      cycles. */
  ghost predicate Counted(cnt: map<nat, nat>, cs: seq<set<nat>>) {
    forall w :: w in Union(cs) ==> Num(cnt, w) == Count(cs, w)
  }

  /** The cycles of `cs` that do not contain `v`, in order. */
  function Without(cs: seq<set<nat>>, v: nat): seq<set<nat>> {
    if cs == [] then [] else Without(cs[..|cs| - 1], v) + (if v in cs[|cs| - 1] then [] else [cs[|cs| - 1]])
  }

  lemma {:induction false} WithoutSpec(cs: seq<set<nat>>, v: nat)
    ensures forall c :: c in Without(cs, v) <==> c in cs && v !in c
    ensures |Without(cs, v)| <= |cs|
    ensures v in Union(cs) ==> |Without(cs, v)| < |cs|
    decreases |cs|
  {
    if cs != [] {
      var init := cs[..|cs| - 1];
      WithoutSpec(init, v);
      assert cs == init + [cs[|cs| - 1]];
    }
  }

  /** The order of the priority queue (VertexCmpCycle): more cycles first,
      then the smaller id. */
  predicate Before(cnt: map<nat, nat>, a: nat, b: nat) {
    Num(cnt, a) > Num(cnt, b) || (Num(cnt, a) == Num(cnt, b) && a < b)
  }

  /** `v` is the head of the queue `pq`. */
  predicate IsFirst(pq: set<nat>, cnt: map<nat, nat>, v: nat) {
    v in pq && forall w :: w in pq && w != v ==> Before(cnt, v, w)
  }

  lemma {:induction false} FirstExists(pq: set<nat>, cnt: map<nat, nat>)
    requires pq != {}
    ensures exists v :: IsFirst(pq, cnt, v)
    decreases pq
  {
    var x :| x in pq;
    var rest := pq - {x};
    if rest == {} {
      assert pq == {x};
      assert IsFirst(pq, cnt, x);
    } else {
      FirstExists(rest, cnt);
      var y :| IsFirst(rest, cnt, y);
      if Before(cnt, x, y) {
        forall w | w in pq && w != x
          ensures Before(cnt, x, w)
        {
          assert w == y || Before(cnt, y, w);
        }
        assert IsFirst(pq, cnt, x);
      } else {
        assert IsFirst(pq, cnt, y);
      }
    }
  }

  /** The queue's head lies in at least as many remaining cycles as any
      other vertex of a remaining cycle. */
  lemma FirstHitsMostCycles(pq: set<nat>, cnt: map<nat, nat>, cs: seq<set<nat>>, v: nat)
    requires IsFirst(pq, cnt, v) && pq == Union(cs) && Counted(cnt, cs)
    ensures forall w :: w in Union(cs) ==> Count(cs, w) <= Count(cs, v)
    ensures IsHead(cs, v)
  {
    forall w | w in Union(cs)
      ensures Count(cs, w) <= Count(cs, v)
      ensures w != v ==> Count(cs, w) < Count(cs, v) || (Count(cs, w) == Count(cs, v) && v < w)
    {
      if w != v {
        assert Before(cnt, v, w);
      }
    }
  }

  /** `v` is the vertex step 3 picks from the remaining cycles `cs`: it lies
      in the most of them and, among those, has the smallest id. */
  predicate IsHead(cs: seq<set<nat>>, v: nat) {
    v in Union(cs) &&
    forall w :: w in Union(cs) && w != v ==> Count(cs, w) < Count(cs, v) || (Count(cs, w) == Count(cs, v) && v < w)
  }

  /** The pick is unique. */
  lemma HeadUnique(cs: seq<set<nat>>, v: nat, w: nat)
    requires IsHead(cs, v) && IsHead(cs, w)
    ensures v == w
  {
  }

  /** Some vertex of a remaining cycle is the pick. */
  lemma HeadExists(cs: seq<set<nat>>)
    requires Union(cs) != {}
    ensures exists v :: IsHead(cs, v)
  {
    var cnt := map w | w in Union(cs) :: Count(cs, w);
    FirstExists(Union(cs), cnt);
    var v :| IsFirst(Union(cs), cnt, v);
    FirstHitsMostCycles(Union(cs), cnt, cs, v);
  }

  ghost function HeadOf(cs: seq<set<nat>>): (v: nat)
    requires Union(cs) != {}
    ensures IsHead(cs, v)
  {
    HeadExists(cs);
    var v :| IsHead(cs, v); v
  }

  /** The vertices step 3 rolls back when `cs` are the remaining cycles: the
      pick, then those of the cycles that do not contain it. */
  ghost function Broken(cs: seq<set<nat>>): set<nat>
    decreases |cs|
  {
    if Union(cs) == {} then {}
    else
      var v := HeadOf(cs);
      WithoutSpec(cs, v);
      {v} + Broken(Without(cs, v))
  }

  /** pq.begin(). */
  method First(pq: set<nat>, cnt: map<nat, nat>) returns (v: nat)
    requires pq != {}
    ensures IsFirst(pq, cnt, v)
  {
    FirstExists(pq, cnt);
    v :| IsFirst(pq, cnt, v);
  }

  /** The counting loop over one component's cycles: every vertex of every
      cycle has its count raised once per cycle and is collected for the
      queue. */
  method CountCycles(cycles: seq<set<nat>>, cnt: map<nat, nat>) returns (cnt': map<nat, nat>, waitToInsert: set<nat>)
    ensures forall w :: Num(cnt', w) == Num(cnt, w) + Count(cycles, w)
    ensures waitToInsert == Union(cycles)
  {
    cnt', waitToInsert := cnt, {};
    for i := 0 to |cycles|
      invariant forall w :: Num(cnt', w) == Num(cnt, w) + Count(cycles[..i], w)
      invariant waitToInsert == Union(cycles[..i])
    {
      assert cycles[..i + 1][..i] == cycles[..i];
      var rest := cycles[i];
      while rest != {}
        invariant rest <= cycles[i]
        invariant forall w :: Num(cnt', w) == Num(cnt, w) + Count(cycles[..i], w) + (if w in cycles[i] - rest then 1 else 0)
        invariant waitToInsert == Union(cycles[..i]) + (cycles[i] - rest)
        decreases rest
      {
        var v :| v in rest;
        cnt' := cnt'[v := Num(cnt', v) + 1];
        waitToInsert := waitToInsert + {v};
        rest := rest - {v};
      }
    }
    assert cycles[..|cycles|] == cycles;
  }

  /** The loop over one deleted cycle: each vertex leaves the queue, and one
      with more than one cycle has its count lowered and comes back. */
  method Uncount(cycle: set<nat>, pq: set<nat>, cnt: map<nat, nat>) returns (pq': set<nat>, cnt': map<nat, nat>)
    ensures forall w :: w in cycle && Num(cnt, w) > 1 ==> Num(cnt', w) == Num(cnt, w) - 1 && w in pq'
    ensures forall w :: w in cycle && Num(cnt, w) <= 1 ==> Num(cnt', w) == Num(cnt, w) && w !in pq'
    ensures forall w :: w !in cycle ==> Num(cnt', w) == Num(cnt, w) && (w in pq' <==> w in pq)
  {
    pq', cnt' := pq, cnt;
    var rest := cycle;
    while rest != {}
      invariant rest <= cycle
      invariant forall w :: w in cycle - rest && Num(cnt, w) > 1 ==> Num(cnt', w) == Num(cnt, w) - 1 && w in pq'
      invariant forall w :: w in cycle - rest && Num(cnt, w) <= 1 ==> Num(cnt', w) == Num(cnt, w) && w !in pq'
      invariant forall w :: w !in cycle - rest ==> Num(cnt', w) == Num(cnt, w) && (w in pq' <==> w in pq)
      decreases rest
    {
      var w :| w in rest;
      pq' := pq' - {w};
      if Num(cnt', w) > 1 {
        cnt' := cnt'[w := Num(cnt', w) - 1];
        pq' := pq' + {w};
      }
      rest := rest - {w};
    }
  }

  /** Deleting a cycle that contains the rolled-back `v` keeps every count
      and the queue in step with the cycles that remain. */
  lemma DropCycle(kept: seq<set<nat>>, c: set<nat>, rest: seq<set<nat>>, v: nat,
                  pq: set<nat>, cnt: map<nat, nat>, pq': set<nat>, cnt': map<nat, nat>)
    requires v in c
    requires Counted(cnt, kept + [c] + rest)
    requires pq - {v} == Union(kept + [c] + rest) - {v}
    requires forall w :: w in c && Num(cnt, w) > 1 ==> Num(cnt', w) == Num(cnt, w) - 1 && w in pq'
    requires forall w :: w in c && Num(cnt, w) <= 1 ==> Num(cnt', w) == Num(cnt, w) && w !in pq'
    requires forall w :: w !in c ==> Num(cnt', w) == Num(cnt, w) && (w in pq' <==> w in pq)
    ensures Counted(cnt', kept + rest)
    ensures pq' == Union(kept + rest)
  {
    var before, after := kept + [c] + rest, kept + rest;
    forall w
      ensures Count(before, w) == Count(after, w) + (if w in c then 1 else 0)
      ensures w in Union(before) <==> w in Union(after) || w in c
    {
      CountAppend(kept + [c], rest, w);
      CountAppend(kept, [c], w);
      CountAppend(kept, rest, w);
      assert [c][..0] == [];
      UnionAppend(kept + [c], rest);
      UnionAppend(kept, [c]);
      UnionAppend(kept, rest);
    }
    forall w
      ensures w in Union(after) ==> Num(cnt', w) == Count(after, w)
      ensures w in pq' <==> w in Union(after)
    {
      CountPositive(after, w);
      CountPositive(before, w);
      if w in c {
        assert Num(cnt, w) == Count(before, w);
      } else {
        assert w != v;
        assert (w in pq - {v}) == (w in Union(before) - {v});
      }
    }
  }

  /** The remove_if over m_cycles: every cycle containing `v` is deleted
      (through Uncount), the others stay in order.  On entry `v` has left the
      queue but still lies in a cycle. */
  method EraseCyclesWith(cycles: seq<set<nat>>, v: nat, pq: set<nat>, cnt: map<nat, nat>)
    returns (cycles': seq<set<nat>>, pq': set<nat>, cnt': map<nat, nat>)
    requires Counted(cnt, cycles) && v in Union(cycles) && v !in pq && pq == Union(cycles) - {v}
    ensures cycles' == Without(cycles, v)
    ensures Counted(cnt', cycles') && pq' == Union(cycles')
  {
    cycles', pq', cnt' := [], pq, cnt;
    assert cycles' + cycles[0..] == cycles;
    for i := 0 to |cycles|
      invariant cycles' == Without(cycles[..i], v)
      invariant Counted(cnt', cycles' + cycles[i..])
      invariant pq' - {v} == Union(cycles' + cycles[i..]) - {v}
      invariant v in pq' ==> v in Union(cycles' + cycles[i..])
      invariant v in Union(cycles[..i]) ==> pq' == Union(cycles' + cycles[i..])
    {
      assert cycles[..i + 1][..i] == cycles[..i];
      assert cycles[i..] == [cycles[i]] + cycles[i + 1..];
      if v in cycles[i] {
        var pq0, cnt0 := pq', cnt';
        pq', cnt' := Uncount(cycles[i], pq', cnt');
        assert cycles' + cycles[i..] == cycles' + [cycles[i]] + cycles[i + 1..];
        DropCycle(cycles', cycles[i], cycles[i + 1..], v, pq0, cnt0, pq', cnt');
      } else {
        assert cycles' + cycles[i..] == (cycles' + [cycles[i]]) + cycles[i + 1..];
        cycles' := cycles' + [cycles[i]];
      }
    }
    assert cycles[..|cycles|] == cycles;
    assert cycles' + cycles[|cycles|..] == cycles';
  }

  /** A vertex lies in the union exactly when it lies in one of the cycles. */
  lemma UnionOfMembers(cs: seq<set<nat>>, all: seq<set<nat>>)
    requires forall c :: c in cs ==> c in all
    ensures Union(cs) <= Union(all)
  {
    forall x | x in Union(cs)
      ensures x in Union(all)
    {
      UnionMembership(cs, x);
      var i :| 0 <= i < |cs| && x in cs[i];
      assert cs[i] in all;
      var j :| 0 <= j < |all| && all[j] == cs[i];
      UnionMembership(all, x);
    }
  }

  /** Step 3 of rollback: while cycles remain, the head of the queue is rolled
      back and every cycle through it deleted.  Every cycle is broken by some
      rolled-back vertex, and only vertices of cycles are rolled back. */
  method BreakCycles(cycles: seq<set<nat>>, pq: set<nat>, cnt: map<nat, nat>)
    returns (rolled: set<nat>, cnt': map<nat, nat>)
    requires Counted(cnt, cycles) && pq == Union(cycles) && {} !in cycles
    ensures rolled == Broken(cycles)
    ensures forall c :: c in cycles ==> c * rolled != {}
    ensures rolled <= Union(cycles)
    ensures rolled == {} <==> cycles == []
  {
    rolled, cnt' := {}, cnt;
    var cs, queue := cycles, pq;
    while cs != []
      invariant Counted(cnt', cs) && queue == Union(cs) && {} !in cs
      invariant Pending(cycles, cs, rolled)
      invariant rolled == {} ==> cs == cycles
      invariant Broken(cycles) == rolled + Broken(cs)
      decreases |cs|
    {
      var v;
      ghost var cs0 := cs;
      v, rolled, cs, queue, cnt' := RollBackFirst(cycles, cs, queue, cnt', rolled);
      HeadUnique(cs0, v, HeadOf(cs0));
    }
  }

  /** Of the cycles, those still in `cs` are unbroken, every other one holds
      a rolled-back vertex, and only vertices of cycles are rolled back. */
  ghost predicate Pending(cycles: seq<set<nat>>, cs: seq<set<nat>>, rolled: set<nat>) {
    && (forall c :: c in cs ==> c in cycles)
    && (forall c :: c in cycles ==> c in cs || c * rolled != {})
    && rolled <= Union(cycles)
  }

  /** One round of step 3: the head `v` of the queue, the vertex in the most
      remaining cycles, is rolled back and every cycle through it deleted. */
  method RollBackFirst(cycles: seq<set<nat>>, cs: seq<set<nat>>, queue: set<nat>, cnt: map<nat, nat>, rolled: set<nat>)
    returns (v: nat, rolled': set<nat>, cs': seq<set<nat>>, queue': set<nat>, cnt': map<nat, nat>)
    requires cs != [] && Counted(cnt, cs) && queue == Union(cs) && {} !in cs
    requires Pending(cycles, cs, rolled)
    ensures IsFirst(queue, cnt, v) && IsHead(cs, v)
    ensures rolled' == rolled + {v} && cs' == Without(cs, v)
    ensures Counted(cnt', cs') && queue' == Union(cs') && {} !in cs'
    ensures Pending(cycles, cs', rolled') && |cs'| < |cs|
  {
    NonEmptyUnion(cs);
    v := First(queue, cnt);
    FirstHitsMostCycles(queue, cnt, cs, v);
    WithoutSpec(cs, v);
    UnionOfMembers(cs, cycles);
    RollBackKeepsPending(cycles, cs, rolled, v);
    cs', queue', cnt' := EraseCyclesWith(cs, v, queue - {v}, cnt);
    rolled' := rolled + {v};
  }

  /** A non-empty list of non-empty cycles has a non-empty union. */
  lemma NonEmptyUnion(cs: seq<set<nat>>)
    requires cs != [] && {} !in cs
    ensures Union(cs) != {}
  {
    var last := cs[|cs| - 1];
    assert last in cs;
    assert last != {};
    var x :| x in last;
    UnionMembership(cs, x);
  }

  /** Rolling back `v`, a vertex of a remaining cycle, and deleting the
      cycles through it keeps the bookkeeping. */
  lemma RollBackKeepsPending(cycles: seq<set<nat>>, cs: seq<set<nat>>, rolled: set<nat>, v: nat)
    requires Pending(cycles, cs, rolled) && v in Union(cs) && Union(cs) <= Union(cycles)
    requires forall c :: c in Without(cs, v) <==> c in cs && v !in c
    ensures Pending(cycles, Without(cs, v), rolled + {v})
  {
    forall c | c in cycles
      ensures c in Without(cs, v) || c * (rolled + {v}) != {}
    {
      if c in cs && v in c {
        assert v in c * (rolled + {v});
      }
    }
  }

  /** The cycles Johnson's enumeration finds in each component, in the order
      of the components. */
  function AllCycles(sccs: seq<set<nat>>, johnson: set<nat> -> seq<set<nat>>): seq<set<nat>> {
    if sccs == [] then [] else AllCycles(sccs[..|sccs| - 1], johnson) + johnson(sccs[|sccs| - 1])
  }

  /** Step 2 of rollback: the cycles of every component are counted, their
      vertices enter the queue, and the cycles are recorded. */
  method CollectCycles(sccs: seq<set<nat>>, johnson: set<nat> -> seq<set<nat>>)
    returns (cycles: seq<set<nat>>, pq: set<nat>, cnt: map<nat, nat>)
    ensures cycles == AllCycles(sccs, johnson)
    ensures forall w :: Num(cnt, w) == Count(cycles, w)
    ensures pq == Union(cycles)
  {
    cycles, pq, cnt := [], {}, map[];
    for i := 0 to |sccs|
      invariant cycles == AllCycles(sccs[..i], johnson)
      invariant forall w :: Num(cnt, w) == Count(cycles, w)
      invariant pq == Union(cycles)
    {
      assert sccs[..i + 1][..i] == sccs[..i];
      var found := johnson(sccs[i]);
      var waitToInsert;
      cnt, waitToInsert := CountCycles(found, cnt);
      pq := pq + waitToInsert;
      forall w
        ensures Count(cycles + found, w) == Count(cycles, w) + Count(found, w)
      {
        CountAppend(cycles, found, w);
      }
      UnionAppend(cycles, found);
      cycles := cycles + found;
    }
    assert sccs[..|sccs|] == sccs;
  }

  /** Every cycle that Johnson's enumeration finds is non-empty. */
  lemma NoEmptyCycle(sccs: seq<set<nat>>, johnson: set<nat> -> seq<set<nat>>)
    requires forall scc :: {} !in johnson(scc)
    ensures {} !in AllCycles(sccs, johnson)
  {
    if sccs != [] {
      NoEmptyCycle(sccs[..|sccs| - 1], johnson);
    }
  }

  /** The loop of buildGraph: each vertex of `hyper` in turn is linked with
      the graph so far and joins it. */
  method LinkAll(readSet: map<nat, set<string>>, writeSet: map<nat, set<string>>, vs: set<nat>, hyper: set<nat>,
                 outEdges: map<nat, set<nat>>, inEdges: map<nat, set<nat>>, degree: map<nat, int>)
    returns (vs': set<nat>, out': map<nat, set<nat>>, in': map<nat, set<nat>>, degree': map<nat, int>)
    requires GraphOk(readSet, writeSet, vs, outEdges, inEdges, degree) && hyper !! vs
    ensures vs' == vs + hyper
    ensures GraphOk(readSet, writeSet, vs', out', in', degree')
  {
    vs', out', in', degree' := vs, outEdges, inEdges, degree;
    var rest := hyper;
    while rest != {}
      invariant rest <= hyper
      invariant vs' == vs + (hyper - rest)
      invariant GraphOk(readSet, writeSet, vs', out', in', degree')
      decreases rest
    {
      var newV :| newV in rest;
      out', in', degree' := LinkNew(readSet, writeSet, vs', newV, out', in', degree');
      vs' := vs' + {newV};
      rest := rest - {newV};
    }
  }

  /** Components drawn from a partition of `vs` lie within `vs`. */
  lemma ComponentsWithin(components: seq<set<nat>>, sccs: seq<set<nat>>, vs: set<nat>)
    requires Union(components) == vs && forall c :: c in sccs ==> c in components
    ensures forall c :: c in sccs ==> c <= vs
  {
    forall c | c in sccs
      ensures c <= vs
    {
      var i :| 0 <= i < |components| && components[i] == c;
      forall x | x in c
        ensures x in vs
      {
        UnionMembership(components, x);
      }
    }
  }

  /** A FabricPP instance: the hyper vertices of the block with their read
      and write sets, the dependency graph, the cycles and the rollback set. */
  class Engine {
    var idCounter: nat
    var hyperVertices: set<nat>
    var readSet: map<nat, set<string>>
    var writeSet: map<nat, set<string>>
    var vertices: set<nat>
    var outEdges: map<nat, set<nat>>
    var inEdges: map<nat, set<nat>>
    var degree: map<nat, int>
    var cycles: seq<set<nat>>
    var cycleNum: map<nat, nat>
    var rollbackTxs: set<nat>

    /** Every recorded transaction has an id the counter has handed out. */
    ghost predicate IdsIssued()
      reads this
    {
      forall h :: h in hyperVertices ==> 1 <= h <= idCounter
    }

    constructor ()
      ensures idCounter == 0 && hyperVertices == {} && readSet == map[] && writeSet == map[]
      ensures vertices == {} && outEdges == map[] && inEdges == map[] && degree == map[]
      ensures cycles == [] && cycleNum == map[] && rollbackTxs == {}
      ensures IdsIssued() && GraphOk(readSet, writeSet, vertices, outEdges, inEdges, degree)
    {
      idCounter, hyperVertices, readSet, writeSet := 0, {}, map[], map[];
      vertices, outEdges, inEdges, degree := {}, map[], map[], map[];
      cycles, cycleNum, rollbackTxs := [], map[], {};
    }

    /** FabricPP::execute with getId: the transaction takes the next id and
        is recorded as a hyper vertex with its read and write sets. */
    method Execute(readKeys: set<string>, writeKeys: set<string>) returns (txid: nat)
      requires IdsIssued()
      modifies this
      ensures txid == old(idCounter) + 1 && idCounter == txid
      ensures txid !in old(hyperVertices) && hyperVertices == old(hyperVertices) + {txid}
      ensures readSet == old(readSet)[txid := readKeys] && writeSet == old(writeSet)[txid := writeKeys]
      ensures IdsIssued()
      ensures vertices == old(vertices) && outEdges == old(outEdges) && inEdges == old(inEdges) && degree == old(degree)
      ensures cycles == old(cycles) && cycleNum == old(cycleNum) && rollbackTxs == old(rollbackTxs)
    {
      idCounter := idCounter + 1;
      txid := idCounter;
      hyperVertices := hyperVertices + {txid};
      readSet := readSet[txid := readKeys];
      writeSet := writeSet[txid := writeKeys];
    }

    /** FabricPP::buildGraph: every hyper vertex is linked with the vertices
        already in the graph and then joins it, so the graph ends up with
        exactly the conflict edges among all of them, whatever the order. */
    method BuildGraph()
      requires GraphOk(readSet, writeSet, vertices, outEdges, inEdges, degree) && hyperVertices !! vertices
      modifies this`vertices, this`outEdges, this`inEdges, this`degree
      ensures vertices == old(vertices) + hyperVertices
      ensures GraphOk(readSet, writeSet, vertices, outEdges, inEdges, degree)
    {
      var rs, ws := readSet, writeSet;
      var vs, out, inn, deg := LinkAll(rs, ws, vertices, hyperVertices, outEdges, inEdges, degree);
      vertices, outEdges, inEdges, degree := vs, out, inn, deg;
      assert readSet == rs && writeSet == ws;
    }

    /** FabricPP::Tarjan over the graph: the vertices fall into disjoint
        components, the result keeps those with more than one vertex, and it
        reports whether there is any. */
    method Tarjan() returns (found: bool, sccs: seq<set<nat>>, ghost components: seq<set<nat>>)
      ensures Disjoint(components) && Union(components) == vertices
      ensures sccs == Nontrivial(components)
      ensures forall c :: c in sccs ==> c in components && |c| > 1
      ensures found <==> sccs != []
    {
      found, sccs, components := RecognizeScc(outEdges, vertices);
      NontrivialSpec(components);
      if sccs != [] {
        assert sccs[0] in sccs;
      }
    }

    /** FabricPP::rollback, with Johnson's enumeration given as `johnson`:
        without a non-trivial component nothing happens; otherwise every
        cycle of every component is broken by a rolled-back vertex of it, and
        no cycle remains. */
    method Rollback(johnson: set<nat> -> seq<set<nat>>) returns (sccs: seq<set<nat>>, rolled: set<nat>)
      requires cycles == [] && cycleNum == map[]
      requires forall scc :: {} !in johnson(scc)
      modifies this`rollbackTxs, this`cycles, this`cycleNum
      ensures forall c :: c in sccs ==> |c| > 1 && c <= vertices
      ensures rollbackTxs == old(rollbackTxs) + rolled && cycles == []
      ensures forall c :: c in AllCycles(sccs, johnson) ==> c * rolled != {}
      ensures rolled <= Union(AllCycles(sccs, johnson))
      ensures rolled == Broken(AllCycles(sccs, johnson))
      ensures sccs == [] ==> rolled == {} && cycleNum == old(cycleNum)
    {
      var found;
      ghost var components;
      found, sccs, components := Tarjan();
      ComponentsWithin(components, sccs, vertices);
      rolled := {};
      if !found {
        return;
      }
      var pq, cnt;
      var cs;
      cs, pq, cnt := CollectCycles(sccs, johnson);
      NoEmptyCycle(sccs, johnson);
      cycles, cycleNum := cs, cnt;
      rolled, cnt := BreakCycles(cs, pq, cnt);
      rollbackTxs, cycles, cycleNum := rollbackTxs + rolled, [], cnt;
    }
  }
}
