/** Gabow's path-based search for strongly connected components, which loom
    runs over the whole hyper-vertex graph (protocol/loom/MinWRollback.cpp,
    onWarm2SCC and Gabow).  Besides the stack S it keeps a stack B of
    component roots; a vertex without out-edges is numbered and left off
    both stacks.  Only components with more than one vertex are recorded.
    The search follows every out-edge, so it may visit vertices beyond the
    ones it starts from; `universe` is the start set together with every
    edge target.  As for Tarjan's search, what is proved is the bookkeeping:
    every visited vertex lands in exactly one component, the recorded
    components are the ones with more than one vertex, and both stacks are
    empty after every root. */
module MinWScc {
  import SetOps
  import opened Scc

  /** Every edge target of the graph. */
  function Targets(g: map<nat, set<nat>>): set<nat> {
    set v, w | v in g && w in g[v] :: w
  }

  /** Vertices of the old index map keep their index. */
  ghost predicate Keeps(before: map<nat, int>, after: map<nat, int>) {
    forall x :: x in before ==> x in after && after[x] == before[x]
  }

  lemma KeepsTrans(a: map<nat, int>, b: map<nat, int>, c: map<nat, int>)
    requires Keeps(a, b) && Keeps(b, c)
    ensures Keeps(a, c)
  {
  }

  /** S and B are in index order, B holds numbered vertices, B is empty
      exactly when S is, and otherwise B starts with S's bottom vertex. */
  ghost predicate Stacks(index: int, s: seq<nat>, b: seq<nat>, indices: map<nat, int>) {
    && index >= 0
    && (forall w :: w in indices ==> 0 <= indices[w] < index)
    && Increasing(s, indices)
    && Increasing(b, indices)
    && (forall i :: 0 <= i < |b| ==> b[i] in indices)
    && (s == [] <==> b == [])
    && (s != [] ==> b[0] == s[0])
  }

  lemma VisitStacks(index: int, s: seq<nat>, b: seq<nat>, indices: map<nat, int>, v: nat)
    requires Stacks(index, s, b, indices) && v !in indices && Elems(s) <= indices.Keys
    ensures Stacks(index + 1, s, b, indices[v := index])
  {
    assert forall i :: 0 <= i < |s| ==> s[i] in Elems(s) && s[i] != v;
  }

  lemma EnterStacks(index: int, s: seq<nat>, b: seq<nat>, indices: map<nat, int>, v: nat)
    requires Stacks(index, s, b, indices) && v !in indices && Elems(s) <= indices.Keys
    ensures Stacks(index + 1, s + [v], b + [v], indices[v := index])
  {
    assert forall i :: 0 <= i < |s| ==> s[i] in Elems(s) && s[i] != v;
    assert forall i :: 0 <= i < |b| ==> b[i] != v;
  }

  /** Numbering a vertex without out-edges makes it a component of its own. */
  lemma SinkCovered(visited: set<nat>, s: seq<nat>, components: seq<set<nat>>, v: nat)
    requires Covered(visited, s, components) && v !in visited
    ensures Covered(visited + {v}, s, components + [{v}])
  {
    var cs := components + [{v}];
    assert cs[..|components|] == components;
    forall i, j | 0 <= i < j < |cs|
      ensures cs[i] !! cs[j]
    {
      if j == |components| && v in cs[i] {
        UnionMembership(components, v);
      }
    }
  }

  /** A vertex with out-edges goes on the stack instead. */
  lemma EnterCovered(visited: set<nat>, s: seq<nat>, components: seq<set<nat>>, v: nat)
    requires Covered(visited, s, components) && v !in visited
    ensures Covered(visited + {v}, s + [v], components)
  {
    assert Elems(s + [v]) == Elems(s) + {v};
  }

  /** Popping a root that is not B's bottom keeps the stacks' shape. */
  lemma PopRootStacks(index: int, s: seq<nat>, b: seq<nat>, indices: map<nat, int>)
    requires Stacks(index, s, b, indices) && |b| >= 2
    ensures Stacks(index, s, b[..|b| - 1], indices)
  {
  }

  /** Popping S down to `v` at position `p` together with B's top `v`. */
  lemma FinishStacks(index: int, s: seq<nat>, b: seq<nat>, indices: map<nat, int>, v: nat, p: nat)
    requires Stacks(index, s, b, indices) && Distinct(s)
    requires p < |s| && s[p] == v && b != [] && b[|b| - 1] == v
    ensures Stacks(index, s[..p], b[..|b| - 1], indices)
  {
    if p > 0 {
      assert s[0] != v;
      assert |b| >= 2;
    } else {
      assert b[0] == v;
      assert |b| == 1;
    }
  }

  /** The invariant of the search state, on values: numbered vertices lie
      in the universe, onStack marks exactly S, every numbered vertex is on S
      or in one component, the stacks are in index order, and the recorded
      components are the nontrivial ones. */
  ghost predicate GabowInv(universe: set<nat>, index: int, s: seq<nat>, b: seq<nat>, indices: map<nat, int>,
                           onStack: map<nat, bool>, sccs: seq<set<nat>>, components: seq<set<nat>>)
  {
    && indices.Keys <= universe
    && StackMarks(s, onStack)
    && Covered(indices.Keys, s, components)
    && Stacks(index, s, b, indices)
    && sccs == Nontrivial(components)
  }

  /** Numbering `v` adds the component {v}, which is not recorded. */
  lemma NumberInv(universe: set<nat>, index: int, s: seq<nat>, b: seq<nat>, indices: map<nat, int>,
                  onStack: map<nat, bool>, sccs: seq<set<nat>>, components: seq<set<nat>>, v: nat)
    requires GabowInv(universe, index, s, b, indices, onStack, sccs, components)
    requires v in universe && v !in indices
    ensures GabowInv(universe, index + 1, s, b, indices[v := index], onStack, sccs, components + [{v}])
  {
    assert indices[v := index].Keys == indices.Keys + {v};
    VisitStacks(index, s, b, indices, v);
    SinkCovered(indices.Keys, s, components, v);
    NontrivialSnoc(components, {v});
  }

  /** Numbering `v` and pushing it on S and B. */
  lemma EnterInv(universe: set<nat>, index: int, s: seq<nat>, b: seq<nat>, indices: map<nat, int>,
                 onStack: map<nat, bool>, sccs: seq<set<nat>>, components: seq<set<nat>>, v: nat)
    requires GabowInv(universe, index, s, b, indices, onStack, sccs, components)
    requires v in universe && v !in indices
    ensures GabowInv(universe, index + 1, s + [v], b + [v], indices[v := index], onStack[v := true], sccs, components)
  {
    assert indices[v := index].Keys == indices.Keys + {v};
    assert v !in s by {
      assert Elems(s) <= indices.Keys;
    }
    EnterStacks(index, s, b, indices, v);
    EnterCovered(indices.Keys, s, components, v);
    PushMarks(s, onStack, v);
  }

  /** Popping a root of B that is not its bottom. */
  lemma CollapseInv(universe: set<nat>, index: int, s: seq<nat>, b: seq<nat>, indices: map<nat, int>,
                    onStack: map<nat, bool>, sccs: seq<set<nat>>, components: seq<set<nat>>)
    requires GabowInv(universe, index, s, b, indices, onStack, sccs, components) && |b| >= 2
    ensures GabowInv(universe, index, s, b[..|b| - 1], indices, onStack, sccs, components)
  {
    PopRootStacks(index, s, b, indices);
  }

  /** Popping S down to the root `v` at position `p` closes the component
      of the popped vertices, which is recorded when it has more than one. */
  lemma FinishInv(universe: set<nat>, index: int, s: seq<nat>, b: seq<nat>, indices: map<nat, int>,
                  onStack: map<nat, bool>, sccs: seq<set<nat>>, components: seq<set<nat>>,
                  v: nat, p: nat, rest: seq<nat>, marks: map<nat, bool>, scc: set<nat>, recorded: seq<set<nat>>)
    requires GabowInv(universe, index, s, b, indices, onStack, sccs, components)
    requires p < |s| && s[p] == v && b != [] && b[|b| - 1] == v
    requires rest == s[..p] && StackMarks(rest, marks) && scc == Elems(s[p..])
    requires recorded == if |scc| > 1 then sccs + [scc] else sccs
    ensures GabowInv(universe, index, rest, b[..|b| - 1], indices, marks, recorded, components + [scc])
  {
    PopCovered(indices.Keys, s, components, p);
    FinishStacks(index, s, b, indices, v, p);
    NontrivialSnoc(components, scc);
  }

  /** The state onWarm2SCC threads through Gabow: the running index, the
      stacks S and B, the index and on-stack maps and the recorded
      components (m_sccs).  `components` records every component, trivial
      ones and vertices without out-edges included; it exists only for the
      proof. */
  class GabowSearch {
    const graph: map<nat, set<nat>>
    const universe: set<nat>
    var index: int
    var s: seq<nat>
    var b: seq<nat>
    var indices: map<nat, int>
    var onStack: map<nat, bool>
    var sccs: seq<set<nat>>
    ghost var components: seq<set<nat>>

    /** Every successor of a vertex of the universe is in the universe. */
    ghost predicate Closed() {
      forall v :: v in universe ==> Out(graph, v) <= universe
    }

    ghost predicate Valid()
      reads this
    {
      GabowInv(universe, index, s, b, indices, onStack, sccs, components)
    }

    constructor (graph: map<nat, set<nat>>, hyperVertices: set<nat>)
      ensures Valid() && Closed()
      ensures this.graph == graph && universe == hyperVertices + Targets(graph)
      ensures indices == map[] && sccs == [] && s == [] && b == []
    {
      this.graph := graph;
      universe := hyperVertices + Targets(graph);
      index := 0;
      s := [];
      b := [];
      indices := map[];
      onStack := map[];
      sccs := [];
      components := [];
      new;
      forall v | v in universe
        ensures Out(graph, v) <= universe
      {
        forall w | w in Out(graph, v)
          ensures w in Targets(graph)
        {
          assert v in graph && w in graph[v];
        }
      }
    }

    /** `v` gets the next index; a vertex without out-edges stops there and
        is its own (unrecorded) component. */
    method Number(v: nat)
      requires Valid() && v in universe && v !in indices
      modifies this
      ensures Valid()
      ensures index == old(index) + 1 && indices == old(indices)[v := old(index)]
      ensures s == old(s) && b == old(b) && onStack == old(onStack) && sccs == old(sccs)
      ensures components == old(components) + [{v}]
    {
      NumberInv(universe, index, s, b, indices, onStack, sccs, components, v);
      indices := indices[v := index];
      index := index + 1;
      components := components + [{v}];
    }

    /** `v`, which has out-edges, is numbered and goes on S and on B. */
    method Enter(v: nat)
      requires Valid() && v in universe && v !in indices
      modifies this
      ensures Valid()
      ensures index == old(index) + 1 && indices == old(indices)[v := old(index)]
      ensures s == old(s) + [v] && b == old(b) + [v] && onStack == old(onStack)[v := true]
      ensures sccs == old(sccs) && components == old(components)
    {
      EnterInv(universe, index, s, b, indices, onStack, sccs, components, v);
      indices := indices[v := index];
      index := index + 1;
      s := s + [v];
      b := b + [v];
      onStack := onStack[v := true];
    }

    /** The else-branch for a successor `w` still on S: pop B while its top
        has a larger index than `w`. */
    method Collapse(w: nat)
      requires Valid() && Marked(onStack, w)
      modifies this
      ensures Valid()
      ensures b <= old(b) && b != []
      ensures s == old(s) && indices == old(indices) && index == old(index) && onStack == old(onStack)
      ensures sccs == old(sccs) && components == old(components)
    {
      var k :| 0 <= k < |s| && s[k] == w;
      assert s[0] in indices && indices[s[0]] <= indices[w] by {
        assert k == 0 || indices[s[0]] < indices[s[k]];
      }
      while indices[b[|b| - 1]] > indices[w]
        invariant Valid() && b <= old(b) && b != [] && b[0] == s[0]
        invariant s == old(s) && indices == old(indices) && index == old(index) && onStack == old(onStack)
        invariant sccs == old(sccs) && components == old(components)
        decreases |b|
      {
        assert |b| >= 2;
        CollapseInv(universe, index, s, b, indices, onStack, sccs, components);
        b := b[..|b| - 1];
      }
    }

    /** Gabow on `v`.  Vertices numbered before keep their index, S only
        grows above what it held, B only shrinks to a prefix of what it held,
        and a call on an empty S leaves it empty. */
    method Gabow(v: nat)
      requires Valid() && Closed() && v in universe && v !in indices
      modifies this
      ensures Valid()
      ensures v in indices && Keeps(old(indices), indices)
      ensures old(s) <= s && b <= old(b)
      ensures old(s) == [] ==> s == []
      decreases |universe - indices.Keys|, 0
    {
      if Out(graph, v) == {} {
        Number(v);
        return;
      }
      ghost var p, base := |s|, b;
      assert v !in base;
      Enter(v);
      Shrinks(universe, old(indices).Keys, indices.Keys, v);
      Explore(v, p, base);
    }

    /** The rest of Gabow once `v` is on S at position `p` and on top of B
        (`base` is B below it): the successor loop, then the root check. */
    method Explore(v: nat, ghost p: nat, ghost base: seq<nat>)
      requires Valid() && Closed() && v in universe
      requires p < |s| && s[p] == v && b == base + [v] && v !in base && (base == [] ==> p == 0)
      modifies this
      ensures Valid()
      ensures Keeps(old(indices), indices)
      ensures old(s)[..p] <= s && b <= base
      ensures p == 0 ==> s == []
      decreases |universe - indices.Keys|, 3
    {
      ScanSuccessors(v, p);
      Finish(v, p, base);
    }

    /** The loop of Gabow over the successors of `v`, which sits at position
        `p` of S and on top of B. */
    method ScanSuccessors(v: nat, ghost p: nat)
      requires Valid() && Closed() && v in universe && p < |s| && s[p] == v && b != [] && b[|b| - 1] == v
      modifies this
      ensures Valid()
      ensures Keeps(old(indices), indices)
      ensures old(s) <= s && b <= old(b)
      decreases |universe - indices.Keys|, 2
    {
      var rest := Out(graph, v);
      while rest != {}
        invariant Valid()
        invariant Keeps(old(indices), indices) && old(indices).Keys <= indices.Keys
        invariant old(s) <= s && b <= old(b)
        decreases rest
      {
        var w :| w in rest;
        rest := rest - {w};
        SetOps.SubsetCardinality(universe - indices.Keys, universe - old(indices).Keys);
        ghost var midS, midB, midIndices := s, b, indices;
        assert w in universe;
        Successor(w);
        KeepsTrans(old(indices), midIndices, indices);
      }
    }

    /** One pass of the loop: recurse into an unnumbered `w`, or collapse B
        when `w` is still on S. */
    method Successor(w: nat)
      requires Valid() && Closed() && w in universe
      modifies this
      ensures Valid()
      ensures Keeps(old(indices), indices)
      ensures old(s) <= s && b <= old(b)
      decreases |universe - indices.Keys|, 1
    {
      if w !in indices {
        Gabow(w);
      } else if Marked(onStack, w) {
        Collapse(w);
      }
    }

    /** Writes the stacks, the marks and the components back after a pop. */
    method Store(s': seq<nat>, onStack': map<nat, bool>, b': seq<nat>, sccs': seq<set<nat>>, ghost components': seq<set<nat>>)
      requires GabowInv(universe, index, s', b', indices, onStack', sccs', components')
      modifies this
      ensures Valid()
      ensures s == s' && onStack == onStack' && b == b' && sccs == sccs' && components == components'
      ensures index == old(index) && indices == old(indices)
    {
      s, onStack, b, sccs, components := s', onStack', b', sccs', components';
    }

    /** The end of Gabow: when B's top is `v`, S is popped down to `v`
        (position `p`), B drops `v`, and the popped vertices are recorded if
        there are more than one.  `base` is B before `v` was pushed. */
    method Finish(v: nat, ghost p: nat, ghost base: seq<nat>)
      requires Valid() && p < |s| && s[p] == v && v !in base && b <= base + [v]
      requires base == [] ==> p == 0
      modifies this
      ensures Valid()
      ensures indices == old(indices) && index == old(index)
      ensures s == old(s)[..p] || s == old(s)
      ensures b <= base
      ensures p == 0 ==> s == []
    {
      if b[|b| - 1] == v {
        assert b == base + [v];
        var rest, marks, scc := PopTo(s, onStack, v, p);
        var recorded := if |scc| > 1 then sccs + [scc] else sccs;
        FinishInv(universe, index, s, b, indices, onStack, sccs, components, v, p, rest, marks, scc, recorded);
        Store(rest, marks, b[..|b| - 1], recorded, components + [scc]);
      } else {
        assert b <= base;
        assert p != 0;
      }
    }
  }

  /** onWarm2SCC: run Gabow from every unnumbered hyper-vertex.  Every
      hyper-vertex, and whatever it reaches, ends up in exactly one
      component; the recorded ones are those with more than one vertex. */
  method OnWarm2Scc(graph: map<nat, set<nat>>, hyperVertices: set<nat>)
    returns (sccs: seq<set<nat>>, ghost components: seq<set<nat>>)
    ensures Disjoint(components)
    ensures hyperVertices <= Union(components) <= hyperVertices + Targets(graph)
    ensures sccs == Nontrivial(components)
    ensures forall c :: c in sccs <==> c in components && |c| > 1
  {
    var search := new GabowSearch(graph, hyperVertices);
    var rest := hyperVertices;
    while rest != {}
      invariant search.Valid() && search.Closed() && search.universe == hyperVertices + Targets(graph)
      invariant search.s == [] && search.b == []
      invariant rest <= hyperVertices && hyperVertices - rest <= search.indices.Keys
      decreases rest
    {
      var hv :| hv in rest;
      rest := rest - {hv};
      if hv !in search.indices {
        search.Gabow(hv);
      }
    }
    sccs := search.sccs;
    components := search.components;
    NontrivialSpec(components);
  }
}
