/** The MinWRollback object of protocol/loom/MinWRollback.cpp: the tables it
    keeps as members (the inverted index, the RW index, the hyper-vertices,
    the buckets of hyper-vertices by their pair of minima, the recorded
    strongly connected components) and the operations that update them in
    place.  Sub-transactions are named by their ids and hyper-vertices by
    their hyper ids; the objects behind the source's pointers are the values
    of `vertices` and `hyperVertices`. */
module MinWEngine {
  import Scc
  import MinWScc
  import MinWGreedy
  import opened MinWIndex
  import opened MinWGraph

  /** The hyper-graph as the component search reads it: each hyper-vertex
      with its out-neighbours. */
  function Graph(hvs: map<nat, Hyper>): (g: map<nat, set<nat>>)
    ensures g.Keys == hvs.Keys
  {
    map h | h in hvs :: hvs[h].outHv
  }

  /** A closed graph names no hyper-vertex outside it. */
  lemma ClosedTargets(hvs: map<nat, Hyper>)
    requires Closed(hvs)
    ensures MinWScc.Targets(Graph(hvs)) <= hvs.Keys
  {
    forall w | w in MinWScc.Targets(Graph(hvs))
      ensures w in hvs
    {
      var v :| v in Graph(hvs) && w in Graph(hvs)[v];
    }
  }

  /** Every dependency "r reads what w writes" of the RW index, as a pair. */
  function Pairs(rwIndex: map<string, set<string>>): set<(string, string)> {
    set r, w | r in rwIndex && w in rwIndex[r] :: (r, w)
  }

  /** Every sub-transaction the RW index names is known, with its
      hyper-vertex in the graph. */
  ghost predicate Known(vertices: map<string, Vertex>, hvs: map<nat, Hyper>, pairs: set<(string, string)>) {
    forall p :: p in pairs ==>
      p.0 in vertices && p.1 in vertices && vertices[p.0].hyperId in hvs && vertices[p.1].hyperId in hvs
  }

  /** The hyper-vertices the dependencies in `done` lead out of `a` to. */
  ghost function Heads(vertices: map<string, Vertex>, done: set<(string, string)>, a: nat): set<nat> {
    set p | p in done && p.0 in vertices && p.1 in vertices && vertices[p.0].hyperId == a :: vertices[p.1].hyperId
  }

  /** The hyper-vertices the dependencies in `done` lead into `b` from. */
  ghost function Tails(vertices: map<string, Vertex>, done: set<(string, string)>, b: nat): set<nat> {
    set p | p in done && p.0 in vertices && p.1 in vertices && vertices[p.1].hyperId == b :: vertices[p.0].hyperId
  }

  /** The hyper-edges of `hvs` are those of `hvs0` and exactly those the
      dependencies in `done` ask for. */
  ghost predicate Built(vertices: map<string, Vertex>, done: set<(string, string)>, hvs0: map<nat, Hyper>, hvs: map<nat, Hyper>) {
    && hvs.Keys == hvs0.Keys
    && forall a :: a in hvs ==>
         && hvs[a].outHv == hvs0[a].outHv + Heads(vertices, done, a)
         && hvs[a].inHv == hvs0[a].inHv + Tails(vertices, done, a)
  }

  /** Exactly one out-edge rhv -> whv and one in-edge whv <- rhv more. */
  ghost predicate OneEdge(hvs: map<nat, Hyper>, hvs': map<nat, Hyper>, rhv: nat, whv: nat) {
    && hvs'.Keys == hvs.Keys
    && forall a :: a in hvs ==>
         && hvs'[a].outHv == hvs[a].outHv + (if a == rhv then {whv} else {})
         && hvs'[a].inHv == hvs[a].inHv + (if a == whv then {rhv} else {})
  }

  /** onRWCNoEdge adds the one edge from the reader's hyper-vertex to the
      writer's, and no other. */
  lemma LinkEdges(hvs: map<nat, Hyper>, rTx: Vertex, wTx: Vertex)
    requires rTx.hyperId in hvs && wTx.hyperId in hvs
    ensures OneEdge(hvs, LinkNoEdge(hvs, rTx, wTx), rTx.hyperId, wTx.hyperId)
  {
  }

  lemma HeadsAdd(vertices: map<string, Vertex>, done: set<(string, string)>, p: (string, string), a: nat)
    requires p.0 in vertices && p.1 in vertices
    ensures Heads(vertices, done + {p}, a) ==
            Heads(vertices, done, a) + (if vertices[p.0].hyperId == a then {vertices[p.1].hyperId} else {})
  {
    var extra := if vertices[p.0].hyperId == a then {vertices[p.1].hyperId} else {};
    forall x | x in Heads(vertices, done + {p}, a)
      ensures x in Heads(vertices, done, a) + extra
    {
      var q :| q in done + {p} && q.0 in vertices && q.1 in vertices && vertices[q.0].hyperId == a && x == vertices[q.1].hyperId;
      if q != p {
        assert x in Heads(vertices, done, a);
      }
    }
  }

  lemma TailsAdd(vertices: map<string, Vertex>, done: set<(string, string)>, p: (string, string), b: nat)
    requires p.0 in vertices && p.1 in vertices
    ensures Tails(vertices, done + {p}, b) ==
            Tails(vertices, done, b) + (if vertices[p.1].hyperId == b then {vertices[p.0].hyperId} else {})
  {
    var extra := if vertices[p.1].hyperId == b then {vertices[p.0].hyperId} else {};
    forall x | x in Tails(vertices, done + {p}, b)
      ensures x in Tails(vertices, done, b) + extra
    {
      var q :| q in done + {p} && q.0 in vertices && q.1 in vertices && vertices[q.1].hyperId == b && x == vertices[q.0].hyperId;
      if q != p {
        assert x in Tails(vertices, done, b);
      }
    }
  }

  /** One more dependency done: the edge it asks for joins the heads and
      tails. */
  lemma BuiltStep(vertices: map<string, Vertex>, done: set<(string, string)>, hvs0: map<nat, Hyper>,
                  hvs: map<nat, Hyper>, hvs': map<nat, Hyper>, p: (string, string))
    requires Built(vertices, done, hvs0, hvs) && p.0 in vertices && p.1 in vertices
    requires OneEdge(hvs, hvs', vertices[p.0].hyperId, vertices[p.1].hyperId)
    ensures Built(vertices, done + {p}, hvs0, hvs')
  {
    forall a | a in hvs'
      ensures hvs'[a].outHv == hvs0[a].outHv + Heads(vertices, done + {p}, a)
      ensures hvs'[a].inHv == hvs0[a].inHv + Tails(vertices, done + {p}, a)
    {
      HeadsAdd(vertices, done, p, a);
      TailsAdd(vertices, done, p, a);
      var rhv, whv := vertices[p.0].hyperId, vertices[p.1].hyperId;
      Regroup(hvs0[a].outHv, hvs[a].outHv, hvs'[a].outHv, Heads(vertices, done, a), Heads(vertices, done + {p}, a),
              if a == rhv then {whv} else {});
      Regroup(hvs0[a].inHv, hvs[a].inHv, hvs'[a].inHv, Tails(vertices, done, a), Tails(vertices, done + {p}, a),
              if a == whv then {rhv} else {});
    }
  }

  lemma Regroup(x0: set<nat>, x: set<nat>, x': set<nat>, h: set<nat>, h': set<nat>, e: set<nat>)
    requires x == x0 + h && x' == x + e && h' == h + e
    ensures x' == x0 + h'
  {
  }

  lemma DoneStep<T>(all: set<T>, rest: set<T>, x: T)
    requires x in rest && rest <= all
    ensures all - rest + {x} == all - (rest - {x})
  {
  }

  /** Sub-transaction lookups a component's rollback never changes. */
  lemma ShapeKeeps(hvs: map<nat, Hyper>, hvs': map<nat, Hyper>, min2: map<int64, set<nat>>)
    requires hvs'.Keys == hvs.Keys
    requires forall h :: h in hvs ==> MinWGreedy.Shape(hvs'[h]) == MinWGreedy.Shape(hvs[h])
    ensures Closed(hvs) ==> Closed(hvs')
    ensures Mirrored(hvs) ==> Mirrored(hvs')
    ensures Filed(hvs, min2) ==> Filed(hvs', min2)
    ensures MinsSound(hvs) ==> MinsSound(hvs')
    ensures MinsExact(hvs) ==> MinsExact(hvs')
  {
    forall h | h in hvs
      ensures hvs'[h].inHv == hvs[h].inHv && hvs'[h].outHv == hvs[h].outHv
      ensures hvs'[h].minIn == hvs[h].minIn && hvs'[h].minOut == hvs[h].minOut
    {
      assert MinWGreedy.Shape(hvs'[h]).inHv == MinWGreedy.Shape(hvs[h]).inHv;
      assert MinWGreedy.Shape(hvs'[h]).minIn == MinWGreedy.Shape(hvs[h]).minIn;
    }
    assert SameMins(hvs, hvs', In) && SameMins(hvs, hvs', Out);
    if Filed(hvs, min2) {
      SameMinsFiled(hvs, hvs', min2);
    }
    if MinsSound(hvs) {
      SameMinsKeep(hvs, hvs', Out, 0, IntMax);
      SameMinsKeep(hvs, hvs', In, 0, IntMax);
    }
    if MinsExact(hvs) {
      AttainedKeep(hvs, hvs', Out);
      AttainedKeep(hvs, hvs', In);
    }
  }

  /** onRWCNoEdge once for every dependency in `pairs`, in any order.  The
      hyper-edges added are exactly those the dependencies ask for, and
      closed, mirrored edge sets stay so. */
  method LinkAll(vertices: map<string, Vertex>, hvs: map<nat, Hyper>, pairs: set<(string, string)>)
    returns (hvs': map<nat, Hyper>)
    requires Known(vertices, hvs, pairs)
    ensures Built(vertices, pairs, hvs, hvs')
    ensures Closed(hvs) ==> Closed(hvs')
    ensures Mirrored(hvs) ==> Mirrored(hvs')
  {
    hvs' := hvs;
    var rest := pairs;
    while rest != {}
      invariant rest <= pairs
      invariant Built(vertices, pairs - rest, hvs, hvs')
      invariant Closed(hvs) ==> Closed(hvs')
      invariant Mirrored(hvs) ==> Mirrored(hvs')
      decreases rest
    {
      var p :| p in rest;
      assert p.0 in vertices && p.1 in vertices && vertices[p.0].hyperId in hvs' && vertices[p.1].hyperId in hvs';
      ghost var before := hvs';
      LinkEdges(hvs', vertices[p.0], vertices[p.1]);
      LinkNoEdgeSpec(hvs', vertices[p.0], vertices[p.1]);
      hvs' := LinkNoEdge(hvs', vertices[p.0], vertices[p.1]);
      BuiltStep(vertices, pairs - rest, hvs, before, hvs', p);
      DoneStep(pairs, rest, p);
      rest := rest - {p};
    }
    assert pairs - rest == pairs;
  }

  class MinWRollback {
    /** Every sub-transaction, by id. */
    var vertices: map<string, Vertex>
    /** m_invertedIndex: the readers and writers of every key. */
    var invertedIndex: map<string, RWSets>
    /** m_RWIndex: the writers every reader depends on. */
    var rwIndex: map<string, set<string>>
    /** m_hyperVertices, with the hyper-vertex objects, by hyper id. */
    var hyperVertices: map<nat, Hyper>
    /** m_min2HyperVertex. */
    var min2HyperVertex: map<int64, set<nat>>
    /** m_sccs. */
    var sccs: seq<set<nat>>

    /** The object as `execute` leaves it for a block: sub-transactions,
        hyper-vertices and the inverted index filled in, nothing derived. */
    constructor (vertices: map<string, Vertex>, invertedIndex: map<string, RWSets>, hyperVertices: map<nat, Hyper>)
      ensures this.vertices == vertices && this.invertedIndex == invertedIndex && this.hyperVertices == hyperVertices
      ensures rwIndex == map[] && min2HyperVertex == map[] && sccs == []
    {
      this.vertices := vertices;
      this.invertedIndex := invertedIndex;
      this.hyperVertices := hyperVertices;
      rwIndex := map[];
      min2HyperVertex := map[];
      sccs := [];
    }

    /** onWarm2RWIndex: every reader of a key that has writers comes to
        depend on those writers, never on itself. */
    method OnWarm2RWIndex()
      modifies this`rwIndex
      ensures Indexed(invertedIndex, invertedIndex.Keys, old(rwIndex), rwIndex)
    {
      rwIndex := MinWIndex.OnWarm2RWIndex(invertedIndex, rwIndex);
    }

    /** onRWCNoEdge: link the reader's hyper-vertex to the writer's, and
        charge the reader's cascade and cost to both. */
    method OnRWCNoEdge(rTx: Vertex, wTx: Vertex)
      requires rTx.hyperId in hyperVertices && wTx.hyperId in hyperVertices
      modifies this`hyperVertices
      ensures hyperVertices == LinkNoEdge(old(hyperVertices), rTx, wTx)
    {
      hyperVertices := LinkNoEdge(hyperVertices, rTx, wTx);
    }

    /** The sequential effect of buildGraphNoEdgeC: onRWCNoEdge once for
        every dependency of the RW index. */
    method BuildGraphNoEdgeC()
      requires Known(vertices, hyperVertices, Pairs(rwIndex))
      modifies this`hyperVertices
      ensures Built(vertices, Pairs(rwIndex), old(hyperVertices), hyperVertices)
      ensures Closed(old(hyperVertices)) ==> Closed(hyperVertices)
      ensures Mirrored(old(hyperVertices)) ==> Mirrored(hyperVertices)
    {
      hyperVertices := LinkAll(vertices, hyperVertices, Pairs(rwIndex));
    }

    /** onRWNoEdge: onRWCNoEdge's bookkeeping, with the minima spread and
        re-bucketed; sound and exact minima and exact buckets stay so. */
    method OnRWNoEdge(rTx: Vertex, wTx: Vertex)
      requires Closed(hyperVertices) && rTx.hyperId in hyperVertices && wTx.hyperId in hyperVertices
      requires IdFits(rTx.hyperId) && IdFits(wTx.hyperId)
      modifies this`hyperVertices, this`min2HyperVertex
      ensures hyperVertices.Keys == old(hyperVertices).Keys && Closed(hyperVertices)
      ensures SameUnminned(hyperVertices, LinkNoEdge(old(hyperVertices), rTx, wTx))
      ensures Filed(old(hyperVertices), old(min2HyperVertex)) ==> Filed(hyperVertices, min2HyperVertex)
      ensures MinsSound(old(hyperVertices)) ==> MinsSound(hyperVertices)
      ensures MinsExact(old(hyperVertices)) ==> MinsExact(hyperVertices)
    {
      hyperVertices, min2HyperVertex := MinWGraph.OnRWNoEdge(hyperVertices, min2HyperVertex, rTx, wTx);
    }

    /** onWarm2SCC: Gabow's search over the hyper-graph.  The components
        found partition the hyper-vertices of a closed graph; those with
        more than one hyper-vertex are appended to m_sccs. */
    method OnWarm2Scc() returns (ghost components: seq<set<nat>>)
      modifies this`sccs
      ensures Scc.Disjoint(components)
      ensures hyperVertices.Keys <= Scc.Union(components)
      ensures Closed(hyperVertices) ==> Scc.Union(components) == hyperVertices.Keys
      ensures sccs == old(sccs) + Scc.Nontrivial(components)
    {
      var found;
      found, components := MinWScc.OnWarm2Scc(Graph(hyperVertices), hyperVertices.Keys);
      if Closed(hyperVertices) {
        ClosedTargets(hyperVertices);
      }
      sccs := sccs + found;
    }

    /** rollbackNoEdge(scc) without fast mode: the component's records are
        weighed (`weighed`), the greedy selection runs on them to its final
        state `final` with its picks; the serial order holds every
        hyper-vertex of the component exactly once, as the queue order, the
        hyper-vertex left over and the stack order popped of `final`; the
        result is what the picks roll back; hyper-vertices outside it are
        untouched, and edges, minima and buckets stay as they were. */
    method RollbackNoEdge(scc: set<nat>)
      returns (info: MinWGreedy.ReExecuteInfo, ghost weighed: map<nat, Hyper>, ghost final: MinWGreedy.Pass, ghost picks: seq<nat>)
      requires scc != {} && scc <= hyperVertices.Keys
      modifies this`hyperVertices
      ensures weighed.Keys == old(hyperVertices).Keys
      ensures forall h :: h in old(hyperVertices) && h !in scc ==> weighed[h] == old(hyperVertices)[h]
      ensures forall h :: h in scc ==> MinWGreedy.Weighed(old(hyperVertices)[h], weighed[h], scc) && MinWGreedy.Priced(weighed[h])
      ensures (final, picks) == MinWGreedy.Greedy(MinWGreedy.Pass(weighed, scc, scc, [], [], {}))
      ensures final.hvs == hyperVertices && final.pq == final.scc && |final.scc| <= 1
      ensures MinWGreedy.Moved(MinWGreedy.Pass(hyperVertices, scc, scc, [], [], {}), final)
      ensures MinWGreedy.Joined(MinWGreedy.Pass(hyperVertices, scc, scc, [], [], {}), final, picks)
      ensures picks != [] && forall p :: p in picks ==> p in scc && p !in final.scc
      ensures info.rollbackTxs == MinWGreedy.Gained(hyperVertices, picks)
      ensures info.serialOrder == final.queueOrder + MinWGreedy.Remaining(final.pq) + MinWGreedy.Reversed(final.stackOrder)
      ensures multiset(info.serialOrder) == multiset(scc)
      ensures hyperVertices.Keys == old(hyperVertices).Keys
      ensures forall h :: h in old(hyperVertices) && h !in scc ==> hyperVertices[h] == old(hyperVertices)[h]
      ensures Closed(old(hyperVertices)) ==> Closed(hyperVertices)
      ensures Mirrored(old(hyperVertices)) ==> Mirrored(hyperVertices)
      ensures Filed(old(hyperVertices), min2HyperVertex) ==> Filed(hyperVertices, min2HyperVertex)
      ensures MinsSound(old(hyperVertices)) ==> MinsSound(hyperVertices)
      ensures MinsExact(old(hyperVertices)) ==> MinsExact(hyperVertices)
    {
      var hvs := hyperVertices;
      hyperVertices, info, weighed, final, picks := MinWGreedy.RollbackNoEdge(hyperVertices, scc);
      ShapeKeeps(hvs, hyperVertices, min2HyperVertex);
    }
  }
}
