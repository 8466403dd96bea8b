/** Tarjan's strongly connected components search, as loom runs it on the
    hyper-vertex graph (protocol/loom/MinWRollback.cpp, recognizeSCC and the
    strongconnect overload it calls) and as FabricPP runs it on its vertex
    graph (protocol/fabricPP/FabricPP.cpp, Tarjan and strongConnect).

    Vertices are ids; the graph maps an id to its out-neighbours.  The search
    only enters vertices of the set it was given (`within`): loom skips the
    other successors explicitly, FabricPP finds them in its index map with
    the default index 0 and so never recurses into them.  What is proved is
    the bookkeeping the callers rely on: every vertex of `within` ends up in
    exactly one popped component, the stack is empty again after every root,
    and the search reports true exactly when some component has more than
    one vertex.  That the components are the strongly connected ones is not
    stated. */
module Scc {
  import SetOps

  /** The out-neighbours of `v`; a vertex the map does not hold has none. */
  function Out(g: map<nat, set<nat>>, v: nat): set<nat> {
    if v in g then g[v] else {}
  }

  function Elems(s: seq<nat>): set<nat> {
    set x | x in s
  }

  /** The union of a list of components. */
  function Union(cs: seq<set<nat>>): set<nat> {
    if cs == [] then {} else Union(cs[..|cs| - 1]) + cs[|cs| - 1]
  }

  lemma {:induction false} UnionMembership(cs: seq<set<nat>>, x: nat)
    ensures x in Union(cs) <==> exists i :: 0 <= i < |cs| && x in cs[i]
    decreases |cs|
  {
    if cs != [] {
      var init := cs[..|cs| - 1];
      UnionMembership(init, x);
      if x in Union(cs) && x !in cs[|cs| - 1] {
        var i :| 0 <= i < |init| && x in init[i];
        assert cs[i] == init[i];
      }
      if exists i :: 0 <= i < |cs| && x in cs[i] {
        var i :| 0 <= i < |cs| && x in cs[i];
        if i < |init| {
          assert x in init[i];
        }
      }
    }
  }

  predicate Distinct(s: seq<nat>) {
    forall i, j :: 0 <= i < j < |s| ==> s[i] != s[j]
  }

  /** No vertex lies in two components. */
  predicate Disjoint(cs: seq<set<nat>>) {
    forall i, j :: 0 <= i < j < |cs| ==> cs[i] !! cs[j]
  }

  /** The stack holds visited vertices in the order of their indices. */
  predicate Increasing(s: seq<nat>, idx: map<nat, int>) {
    forall i, j :: 0 <= i < j < |s| ==> s[i] in idx && s[j] in idx && idx[s[i]] < idx[s[j]]
  }

  /** The components with more than one vertex, in their order. */
  function Nontrivial(cs: seq<set<nat>>): seq<set<nat>> {
    if cs == [] then []
    else Nontrivial(cs[..|cs| - 1]) + (if |cs[|cs| - 1]| > 1 then [cs[|cs| - 1]] else [])
  }

  lemma {:induction false} NontrivialSpec(cs: seq<set<nat>>)
    ensures forall c :: c in Nontrivial(cs) <==> c in cs && |c| > 1
    decreases |cs|
  {
    if cs != [] {
      NontrivialSpec(cs[..|cs| - 1]);
      assert cs == cs[..|cs| - 1] + [cs[|cs| - 1]];
    }
  }

  lemma NontrivialSnoc(cs: seq<set<nat>>, c: set<nat>)
    ensures Nontrivial(cs + [c]) == Nontrivial(cs) + (if |c| > 1 then [c] else [])
  {
    assert (cs + [c])[..|cs|] == cs;
  }

  lemma ElemsSplit(s: seq<nat>, p: nat)
    requires p <= |s|
    ensures Elems(s) == Elems(s[..p]) + Elems(s[p..])
  {
    assert s == s[..p] + s[p..];
  }

  lemma DistinctSplit(s: seq<nat>, p: nat)
    requires p <= |s| && Distinct(s)
    ensures Elems(s[..p]) !! Elems(s[p..])
  {
    forall x | x in Elems(s[..p])
      ensures x !in Elems(s[p..])
    {
      var i :| 0 <= i < p && s[i] == x;
      assert forall j :: p <= j < |s| ==> s[j] != x;
    }
  }

  function Min(a: int, b: int): int {
    if a < b then a else b
  }

  /** `m[w]` of an on-stack map, a missing key reading as false. */
  predicate Marked(m: map<nat, bool>, w: nat) {
    w in m && m[w]
  }

  /** The stack has no repeats and the on-stack map marks exactly its
      vertices. */
  ghost predicate StackMarks(stack: seq<nat>, onStack: map<nat, bool>) {
    Distinct(stack) && forall w :: Marked(onStack, w) <==> w in stack
  }

  /** Every visited vertex is on the stack or in exactly one popped
      component. */
  ghost predicate Covered(visited: set<nat>, stack: seq<nat>, components: seq<set<nat>>) {
    && visited == Elems(stack) + Union(components)
    && Elems(stack) !! Union(components)
    && Disjoint(components)
  }

  /** Indices are positive and below the running index, a lowlink never
      exceeds its index, the stack is in index order, and no lowlink on the
      stack is below the index of the stack's bottom. */
  ghost predicate Numbered(index: int, stack: seq<nat>, indices: map<nat, int>, lowlinks: map<nat, int>) {
    && index >= 0
    && indices.Keys == lowlinks.Keys
    && (forall w :: w in indices ==> 0 < indices[w] <= index && lowlinks[w] <= indices[w])
    && Increasing(stack, indices)
    && (forall i :: 0 <= i < |stack| ==> stack[0] in indices && stack[i] in lowlinks && indices[stack[0]] <= lowlinks[stack[i]])
  }

  lemma PushMarks(stack: seq<nat>, onStack: map<nat, bool>, v: nat)
    requires StackMarks(stack, onStack) && v !in stack
    ensures StackMarks(stack + [v], onStack[v := true])
  {
  }

  lemma PopMarks(stack: seq<nat>, onStack: map<nat, bool>)
    requires StackMarks(stack, onStack) && stack != []
    ensures StackMarks(stack[..|stack| - 1], onStack[stack[|stack| - 1] := false])
  {
    var s := stack[..|stack| - 1];
    var top := stack[|stack| - 1];
    var m := onStack[top := false];
    assert stack == s + [top];
    assert forall i :: 0 <= i < |s| ==> s[i] == stack[i] && s[i] != top;
    forall w
      ensures Marked(m, w) <==> w in s
    {
      if w != top {
        assert Marked(m, w) == Marked(onStack, w);
        assert (w in stack) == (w in s);
      }
    }
  }

  lemma PushCovered(visited: set<nat>, stack: seq<nat>, components: seq<set<nat>>, v: nat)
    requires Covered(visited, stack, components) && v !in visited
    ensures Covered(visited + {v}, stack + [v], components)
  {
    assert Elems(stack + [v]) == Elems(stack) + {v};
  }

  lemma PopCovered(visited: set<nat>, stack: seq<nat>, components: seq<set<nat>>, p: nat)
    requires Covered(visited, stack, components) && Distinct(stack) && p <= |stack|
    ensures Covered(visited, stack[..p], components + [Elems(stack[p..])])
  {
    ElemsSplit(stack, p);
    DistinctSplit(stack, p);
    var cs := components + [Elems(stack[p..])];
    assert cs[..|cs| - 1] == components;
    forall i, j | 0 <= i < j < |cs|
      ensures cs[i] !! cs[j]
    {
      if j == |cs| - 1 {
        forall x | x in cs[i]
          ensures x !in cs[j]
        {
          UnionMembership(components, x);
        }
      }
    }
  }

  lemma PushNumbered(index: int, stack: seq<nat>, indices: map<nat, int>, lowlinks: map<nat, int>, v: nat)
    requires Numbered(index, stack, indices, lowlinks) && v !in indices && Elems(stack) <= indices.Keys
    ensures Numbered(index + 1, stack + [v], indices[v := index + 1], lowlinks[v := index + 1])
  {
    var s := stack + [v];
    var idx := indices[v := index + 1];
    var low := lowlinks[v := index + 1];
    assert forall i :: 0 <= i < |stack| ==> s[i] == stack[i] && stack[i] in Elems(stack);
    assert idx.Keys == low.Keys;
    assert forall w :: w in idx ==> 0 < idx[w] <= index + 1 && low[w] <= idx[w];
    forall i, j | 0 <= i < j < |s|
      ensures s[i] in idx && s[j] in idx && idx[s[i]] < idx[s[j]]
    {
      if j < |stack| {
        assert indices[stack[i]] < indices[stack[j]];
      }
    }
    forall i | 0 <= i < |s|
      ensures s[0] in idx && s[i] in low && idx[s[0]] <= low[s[i]]
    {
      if i < |stack| {
        assert indices[stack[0]] <= lowlinks[stack[i]];
      }
    }
  }

  lemma PrefixNumbered(index: int, stack: seq<nat>, indices: map<nat, int>, lowlinks: map<nat, int>, p: nat)
    requires Numbered(index, stack, indices, lowlinks) && p <= |stack|
    ensures Numbered(index, stack[..p], indices, lowlinks)
  {
  }

  /** Lowering the lowlink of an on-stack vertex to a value no smaller than
      the bottom's index keeps the numbering. */
  lemma LowerNumbered(index: int, stack: seq<nat>, indices: map<nat, int>, lowlinks: map<nat, int>, v: nat, val: int)
    requires Numbered(index, stack, indices, lowlinks) && v in stack
    requires stack[0] in indices && val >= indices[stack[0]]
    ensures Numbered(index, stack, indices, lowlinks[v := Min(lowlinks[v], val)])
  {
  }

  /** Every vertex of the old maps keeps its index and lowlink. */
  ghost predicate Extends(oldIndices: map<nat, int>, oldLowlinks: map<nat, int>, indices: map<nat, int>, lowlinks: map<nat, int>) {
    forall x :: x in oldIndices ==> x in indices && x in lowlinks && indices[x] == oldIndices[x] && x in oldLowlinks && lowlinks[x] == oldLowlinks[x]
  }

  lemma ExtendsTrans(a: map<nat, int>, al: map<nat, int>, b: map<nat, int>, bl: map<nat, int>, c: map<nat, int>, cl: map<nat, int>, v: nat)
    requires Extends(a, al, b, bl) && v !in a && Extends(b - {v}, bl - {v}, c, cl)
    ensures Extends(a, al, c, cl)
  {
    forall x | x in a
      ensures x in c && x in cl && c[x] == a[x] && x in al && cl[x] == al[x]
    {
      assert x in b - {v};
    }
  }

  lemma PrefixTrans(a: seq<nat>, b: seq<nat>, c: seq<nat>)
    requires |a| <= |b| <= |c| && b[..|a|] == a && c[..|b|] == b
    ensures c[..|a|] == a
  {
    assert c[..|a|] == c[..|b|][..|a|];
  }

  lemma PrefixAt(a: seq<nat>, b: seq<nat>, p: nat)
    requires |a| <= |b| && b[..|a|] == a && p < |a|
    ensures b[p] == a[p]
  {
    assert b[p] == b[..|a|][p];
  }

  lemma ExtendsAfterVisit(a: map<nat, int>, al: map<nat, int>, b: map<nat, int>, bl: map<nat, int>, c: map<nat, int>, cl: map<nat, int>, v: nat)
    requires v !in a && v in b && v in bl && b == a[v := b[v]] && bl == al[v := bl[v]]
    requires Extends(b - {v}, bl - {v}, c, cl)
    ensures Extends(a, al, c, cl)
  {
    forall x | x in a
      ensures x in c && x in cl && c[x] == a[x] && x in al && cl[x] == al[x]
    {
      assert x in b - {v};
    }
  }

  lemma PoppedPrefix(a: seq<nat>, b: seq<nat>, c: seq<nat>)
    requires |a| < |b| && b[..|a|] == a && (c == b[..|a|] || c == b)
    ensures |c| >= |a| && c[..|a|] == a
  {
  }

  /** Visiting `v` leaves fewer unvisited vertices: the search terminates. */
  lemma Shrinks(within: set<nat>, before: set<nat>, after: set<nat>, v: nat)
    requires before <= after && v in within && v in after && v !in before
    ensures |within - after| < |within - before|
  {
    SetOps.SubsetCardinality(within - after, within - before);
    assert v in within - before && v !in within - after;
  }

  /** The state strongconnect threads through its recursion: the running
      index, the stack, the index, lowlink and on-stack maps, and the popped
      components. */
  /** The invariant of Tarjan's search: the visited vertices lie in
      `within`, the stack is marked, every visited vertex is on the stack or
      in one popped component, and the numbering is consistent. */
  ghost predicate SearchState(within: set<nat>, index: int, stack: seq<nat>, indices: map<nat, int>,
                              lowlinks: map<nat, int>, onStack: map<nat, bool>, components: seq<set<nat>>)
  {
    && indices.Keys <= within
    && StackMarks(stack, onStack)
    && Covered(indices.Keys, stack, components)
    && Numbered(index, stack, indices, lowlinks)
  }

  /** Popping the stack down to position `p` into a new component keeps the
      invariant. */
  lemma PopKeepsState(within: set<nat>, index: int, stack: seq<nat>, indices: map<nat, int>,
                      lowlinks: map<nat, int>, onStack: map<nat, bool>, components: seq<set<nat>>,
                      p: nat, s: seq<nat>, marks: map<nat, bool>, component: set<nat>)
    requires SearchState(within, index, stack, indices, lowlinks, onStack, components)
    requires p <= |stack| && s == stack[..p] && component == Elems(stack[p..]) && StackMarks(s, marks)
    ensures SearchState(within, index, s, indices, lowlinks, marks, components + [component])
  {
    PopCovered(indices.Keys, stack, components, p);
    PrefixNumbered(index, stack, indices, lowlinks, p);
  }

  class Tarjan {
    const graph: map<nat, set<nat>>
    const within: set<nat>
    var index: int
    var stack: seq<nat>
    var indices: map<nat, int>
    var lowlinks: map<nat, int>
    var onStack: map<nat, bool>
    var components: seq<set<nat>>

    ghost predicate Valid()
      reads this
    {
      && indices.Keys <= within
      && StackMarks(stack, onStack)
      && Covered(indices.Keys, stack, components)
      && Numbered(index, stack, indices, lowlinks)
    }

    constructor (graph: map<nat, set<nat>>, within: set<nat>)
      ensures Valid()
      ensures this.graph == graph && this.within == within
      ensures index == 0 && stack == [] && indices == map[] && components == []
    {
      this.graph := graph;
      this.within := within;
      index := 0;
      stack := [];
      indices := map[];
      lowlinks := map[];
      onStack := map[];
      components := [];
    }

    /** The first lines of strongconnect: `v` gets the next index as index
        and lowlink and is pushed. */
    method Visit(v: nat)
      requires Valid() && v in within && v !in indices
      modifies this`index, this`indices, this`lowlinks, this`stack, this`onStack
      ensures Valid()
      ensures index == old(index) + 1
      ensures indices == old(indices)[v := index] && lowlinks == old(lowlinks)[v := index]
      ensures stack == old(stack) + [v] && components == old(components)
    {
      PushMarks(stack, onStack, v);
      PushCovered(indices.Keys, stack, components, v);
      PushNumbered(index, stack, indices, lowlinks, v);
      index, indices, lowlinks, stack, onStack :=
        index + 1, indices[v := index + 1], lowlinks[v := index + 1], stack + [v], onStack[v := true];
    }

    /** The do-while loop of strongconnect: pop down to `v`, which sits at
        position `p`, and record the popped vertices as one component. */
    method PopComponent(v: nat, ghost p: nat)
      requires Valid() && p < |stack| && stack[p] == v
      modifies this`stack, this`onStack, this`components
      ensures Valid()
      ensures stack == old(stack)[..p]
      ensures components == old(components) + [Elems(old(stack)[p..])]
    {
      var s, marks, component := PopTo(stack, onStack, v, p);
      var cs := components + [component];
      PopKeepsState(within, index, stack, indices, lowlinks, onStack, components, p, s, marks, component);
      stack, onStack, components := s, marks, cs;
    }

    /** The recursive strongconnect.  Vertices visited before the call keep
        their index and lowlink, the stack below the call is untouched, and a
        call on an empty stack leaves it empty. */
    method StrongConnect(v: nat)
      requires Valid() && v in within && v !in indices
      modifies this
      ensures Valid()
      ensures v in indices && index >= old(index)
      ensures Extends(old(indices), old(lowlinks), indices, lowlinks)
      ensures |stack| >= |old(stack)| && stack[..|old(stack)|] == old(stack)
      ensures old(stack) == [] ==> stack == []
      ensures old(stack) != [] ==> lowlinks[v] >= indices[old(stack)[0]]
      decreases |within - indices.Keys|, 0
    {
      ghost var p := |stack|;
      Visit(v);
      Shrinks(within, old(indices).Keys, indices.Keys, v);
      ghost var pushed, pushedIndices, pushedLowlinks := stack, indices, lowlinks;
      ScanSuccessors(v, p);
      PrefixAt(pushed, stack, p);
      ExtendsAfterVisit(old(indices), old(lowlinks), pushedIndices, pushedLowlinks, indices, lowlinks, v);
      PrefixTrans(old(stack), pushed, stack);
      ghost var scanned := stack;
      Finish(v, p);
      PoppedPrefix(old(stack), scanned, stack);
    }

    /** The end of strongconnect: `v`, at position `p`, is the root of a
        component exactly when its lowlink equals its index, and then the
        stack is popped down to below it.  The bottom vertex of the stack is
        always such a root. */
    method Finish(v: nat, ghost p: nat)
      requires Valid() && p < |stack| && stack[p] == v
      modifies this
      ensures Valid()
      ensures indices == old(indices) && lowlinks == old(lowlinks) && index == old(index)
      ensures stack == old(stack)[..p] || stack == old(stack)
      ensures p == 0 ==> stack == []
      ensures p > 0 ==> stack != [] && stack[0] == old(stack)[0] && lowlinks[v] >= indices[stack[0]]
    {
      if lowlinks[v] == indices[v] {
        PopComponent(v, p);
      } else {
        assert p != 0;
      }
    }

    /** strongconnect's loop over the successors of `v`, which was just
        pushed at position `p`; successors outside `within` are skipped. */
    method ScanSuccessors(v: nat, ghost p: nat)
      requires Valid() && v in indices && p < |stack| && stack[p] == v && indices[v] == index
      modifies this
      ensures Valid()
      ensures v in indices && indices[v] == old(indices)[v] && index >= old(index)
      ensures Extends(old(indices) - {v}, old(lowlinks) - {v}, indices, lowlinks)
      ensures |stack| >= |old(stack)| && stack[..|old(stack)|] == old(stack)
      decreases |within - indices.Keys|, 2
    {
      var rest := Out(graph, v);
      while rest != {}
        invariant Valid()
        invariant v in indices && indices[v] == old(indices)[v] && index >= old(index)
        invariant Extends(old(indices) - {v}, old(lowlinks) - {v}, indices, lowlinks)
        invariant |stack| >= |old(stack)| && stack[..|old(stack)|] == old(stack)
        invariant old(indices).Keys <= indices.Keys
        decreases rest
      {
        var w :| w in rest;
        rest := rest - {w};
        if w !in within {
          continue;
        }
        ghost var midStack, midIndices, midLowlinks := stack, indices, lowlinks;
        PrefixAt(old(stack), stack, p);
        SetOps.SubsetCardinality(within - indices.Keys, within - old(indices).Keys);
        Successor(v, w, p);
        ExtendsTrans(old(indices) - {v}, old(lowlinks) - {v}, midIndices, midLowlinks, indices, lowlinks, v);
        PrefixTrans(old(stack), midStack, stack);
      }
    }

    /** One pass of strongconnect's loop over the successors of `v`: recurse
        into an unvisited `w` and take its lowlink, or take the index of a `w`
        that is still on the stack. */
    method Successor(v: nat, w: nat, ghost p: nat)
      requires Valid() && v in indices && w in within && p < |stack| && stack[p] == v
      modifies this
      ensures Valid()
      ensures v in indices && indices[v] == old(indices)[v] && index >= old(index)
      ensures Extends(old(indices) - {v}, old(lowlinks) - {v}, indices, lowlinks)
      ensures |stack| >= |old(stack)| && stack[..|old(stack)|] == old(stack)
      decreases |within - indices.Keys|, 1
    {
      if w !in indices {
        StrongConnect(w);
        LowerNumbered(index, stack, indices, lowlinks, v, lowlinks[w]);
        lowlinks := lowlinks[v := Min(lowlinks[v], lowlinks[w])];
      } else if Marked(onStack, w) {
        var j :| 0 <= j < |stack| && stack[j] == w;
        assert 0 == j || indices[stack[0]] < indices[stack[j]];
        LowerNumbered(index, stack, indices, lowlinks, v, indices[w]);
        lowlinks := lowlinks[v := Min(lowlinks[v], indices[w])];
      }
    }
  }

  /** The pop loop of strongconnect on the stack and the on-stack map: pop
      and unmark until `v`, which sits at position `p`, has been popped. */
  method PopTo(stack: seq<nat>, onStack: map<nat, bool>, v: nat, ghost p: nat)
    returns (s: seq<nat>, marks: map<nat, bool>, component: set<nat>)
    requires StackMarks(stack, onStack) && p < |stack| && stack[p] == v
    ensures s == stack[..p] && component == Elems(stack[p..])
    ensures StackMarks(s, marks)
  {
    s, marks := stack, onStack;
    component := {};
    var w := s[|s| - 1];
    PopMarks(s, marks);
    s, marks := s[..|s| - 1], marks[w := false];
    component := component + {w};
    assert stack[|s|..] == [w];
    while w != v
      invariant p <= |s| < |stack|
      invariant s == stack[..|s|]
      invariant w == stack[|s|]
      invariant component == Elems(stack[|s|..])
      invariant StackMarks(s, marks)
      decreases |s|
    {
      assert |s| != p;
      var top := s[|s| - 1];
      assert stack[|s| - 1..] == [top] + stack[|s|..];
      PopMarks(s, marks);
      w := top;
      s, marks := s[..|s| - 1], marks[w := false];
      component := component + {w};
    }
    assert |s| == p;
  }

  /** KeepNontrivial: the loop after the search that copies the components
      with more than one vertex. */
  method KeepNontrivial(components: seq<set<nat>>) returns (sccs: seq<set<nat>>)
    ensures sccs == Nontrivial(components)
    ensures forall c :: c in sccs <==> c in components && |c| > 1
  {
    sccs := [];
    for i := 0 to |components|
      invariant sccs == Nontrivial(components[..i])
    {
      assert components[..i + 1][..i] == components[..i];
      if |components[i]| > 1 {
        sccs := sccs + [components[i]];
      }
    }
    assert components[..|components|] == components;
    NontrivialSpec(components);
  }

  /** recognizeSCC: search from every unvisited vertex of `hyperVertexs`, keep
      the components with more than one vertex and report whether there is
      one.  `components` is every popped component: together they cover
      `hyperVertexs` and no two share a vertex. */
  method RecognizeScc(graph: map<nat, set<nat>>, hyperVertexs: set<nat>)
    returns (found: bool, sccs: seq<set<nat>>, ghost components: seq<set<nat>>)
    ensures Disjoint(components) && Union(components) == hyperVertexs
    ensures sccs == Nontrivial(components)
    ensures forall c :: c in sccs ==> c in components && |c| > 1
    ensures found <==> exists c :: c in components && |c| > 1
  {
    var search := new Tarjan(graph, hyperVertexs);
    var rest := hyperVertexs;
    while rest != {}
      invariant search.Valid() && search.within == hyperVertexs && search.stack == []
      invariant rest <= hyperVertexs && hyperVertexs - rest <= search.indices.Keys
      decreases rest
    {
      var hv :| hv in rest;
      rest := rest - {hv};
      if hv !in search.indices {
        search.StrongConnect(hv);
      }
    }
    components := search.components;
    sccs := KeepNontrivial(search.components);
    found := sccs != [];
    if found {
      assert sccs[0] in sccs;
    }
  }
}
