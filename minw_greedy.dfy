/** The greedy rollback of one strongly connected component of hyper-vertices
    (protocol/loom/MinWRollback.cpp, the NoEdge variant): weigh every
    hyper-vertex by what rolling back its in-edges or its out-edges inside
    the component would cost, then repeatedly roll back the cheapest one,
    update its neighbours and drop those whose remaining dependencies in the
    component have vanished, and finally read off a serial order.

    The scc, the ordered set `pq`, the queue order and the stack order are
    the locals rollbackNoEdge passes down by reference; here they travel
    together as a `Pass`.  The stack order is a sequence whose last element
    is the top. */
module MinWGreedy {
  import SetOps
  import opened LoomOrder
  import opened MinWGraph

  /** `m[v]` of an unordered_map<Vertex, int>, which `operator[]` creates as 0. */
  function Count(m: map<string, int>, v: string): int {
    if v in m then m[v] else 0
  }

  // ---------------------------------------------------------------------
  // calculateHyperVertexWeightNoEdge

  /** The sum of the out-weights towards the hyper-vertices of `s`. */
  ghost function WeightSum(outWeights: map<nat, real>, s: set<nat>): real
    decreases s
  {
    if s == {} then 0.0 else var o :| o in s; Weight(outWeights, o) + WeightSum(outWeights, s - {o})
  }

  /** The sum does not depend on the order in which it is taken. */
  lemma {:induction false} WeightSumRemove(outWeights: map<nat, real>, s: set<nat>, x: nat)
    requires x in s
    ensures WeightSum(outWeights, s) == Weight(outWeights, x) + WeightSum(outWeights, s - {x})
    decreases s
  {
    var y :| y in s && WeightSum(outWeights, s) == Weight(outWeights, y) + WeightSum(outWeights, s - {y});
    if y != x {
      WeightSumRemove(outWeights, s - {y}, x);
      WeightSumRemove(outWeights, s - {x}, y);
      assert s - {y} - {x} == s - {x} - {y};
    }
  }

  /** How many of the out-edges towards `s` carry the rollback vertex `v`. */
  ghost function Hits(outRollback: map<nat, set<string>>, s: set<nat>, v: string): nat {
    |set o | o in s && v in Rollback(outRollback, o)|
  }

  lemma HitsAdd(outRollback: map<nat, set<string>>, s: set<nat>, o: nat, v: string)
    requires o !in s
    ensures Hits(outRollback, s + {o}, v) == Hits(outRollback, s, v) + (if v in Rollback(outRollback, o) then 1 else 0)
  {
    var before := set x | x in s && v in Rollback(outRollback, x);
    var after := set x | x in s + {o} && v in Rollback(outRollback, x);
    if v in Rollback(outRollback, o) {
      assert after == before + {o};
    } else {
      assert after == before;
    }
  }

  /** `after` is `before` with every rollback vertex of the out-edges towards
      `s` counted once per edge: the tally m_out_allRB keeps. */
  ghost predicate Tallied(before: map<string, int>, after: map<string, int>, outRollback: map<nat, set<string>>, s: set<nat>) {
    forall v ::
      && (v in after <==> v in before || Hits(outRollback, s, v) > 0)
      && Count(after, v) == Count(before, v) + Hits(outRollback, s, v)
  }

  /** The `++` loop over one rollback set. */
  method Bump(m: map<string, int>, vs: set<string>) returns (m': map<string, int>)
    ensures forall v :: (v in m' <==> v in m || v in vs) && Count(m', v) == Count(m, v) + (if v in vs then 1 else 0)
  {
    m' := m;
    var rest := vs;
    while rest != {}
      invariant rest <= vs
      invariant forall v :: (v in m' <==> v in m || v in vs - rest) && Count(m', v) == Count(m, v) + (if v in vs - rest then 1 else 0)
      decreases rest
    {
      var v :| v in rest;
      m' := m'[v := Count(m', v) + 1];
      rest := rest - {v};
    }
  }

  /** A hyper-vertex's cost is the cheaper of its two sides, and its type
      names the side it was taken from. */
  ghost predicate Priced(h: Hyper) {
    && h.cost <= h.inCost && h.cost <= h.outCost
    && (h.rollbackType == In ==> h.cost == h.inCost)
    && (h.rollbackType == Out ==> h.cost == h.outCost)
  }

  /** What weighing does to one hyper-vertex of the component. */
  ghost predicate Weighed(h: Hyper, h': Hyper, scc: set<nat>) {
    && h'.outCost == h.outCost + WeightSum(h.outWeights, h.outHv * scc)
    && Tallied(h.outAllRB, h'.outAllRB, h.outRollback, h.outHv * scc)
    && h'.rollbackType == (if h.inCost < h'.outCost then In else Out)
    && h' == h.(outAllRB := h'.outAllRB, outCost := h'.outCost, rollbackType := h'.rollbackType, cost := h'.cost)
  }

  lemma TallyStep(h: Hyper, scc: set<nat>, done: set<nat>, o: nat, before: map<string, int>, after: map<string, int>)
    requires o !in done && o in scc
    requires Tallied(h.outAllRB, before, h.outRollback, done)
    requires forall v :: (v in after <==> v in before || v in Rollback(h.outRollback, o))
                         && Count(after, v) == Count(before, v) + (if v in Rollback(h.outRollback, o) then 1 else 0)
    ensures Tallied(h.outAllRB, after, h.outRollback, done + {o})
  {
    forall v ensures (v in after <==> v in h.outAllRB || Hits(h.outRollback, done + {o}, v) > 0)
                     && Count(after, v) == Count(h.outAllRB, v) + Hits(h.outRollback, done + {o}, v)
    {
      HitsAdd(h.outRollback, done, o, v);
    }
  }

  /** One more out-edge visited: the visited part of the component grows by
      it exactly when it leads into the component. */
  lemma VisitStep(outHv: set<nat>, rest: set<nat>, scc: set<nat>, o: nat)
    requires o in rest && rest <= outHv
    ensures o !in (outHv - rest) * scc
    ensures (outHv - (rest - {o})) * scc == if o in scc then (outHv - rest) * scc + {o} else (outHv - rest) * scc
    ensures (outHv - rest) * scc + {o} - {o} == (outHv - rest) * scc
  {
  }

  /** The loop of calculateHyperVertexWeightNoEdge over one hyper-vertex's
      out-edges: those into the component are tallied into m_out_allRB and
      their weights added to m_out_cost. */
  method TallyOut(h: Hyper, scc: set<nat>) returns (outAllRB: map<string, int>, outCost: real)
    ensures outCost == h.outCost + WeightSum(h.outWeights, h.outHv * scc)
    ensures Tallied(h.outAllRB, outAllRB, h.outRollback, h.outHv * scc)
  {
    outAllRB := h.outAllRB;
    outCost := h.outCost;
    var rest := h.outHv;
    while rest != {}
      invariant rest <= h.outHv
      invariant outCost == h.outCost + WeightSum(h.outWeights, (h.outHv - rest) * scc)
      invariant Tallied(h.outAllRB, outAllRB, h.outRollback, (h.outHv - rest) * scc)
      decreases rest
    {
      var o :| o in rest;
      VisitStep(h.outHv, rest, scc, o);
      if o in scc {
        var bumped := Bump(outAllRB, Rollback(h.outRollback, o));
        TallyStep(h, scc, (h.outHv - rest) * scc, o, outAllRB, bumped);
        outAllRB := bumped;
        WeightSumRemove(h.outWeights, (h.outHv - rest) * scc + {o}, o);
        outCost := outCost + Weight(h.outWeights, o);
      }
      rest := rest - {o};
    }
    assert h.outHv - rest == h.outHv;
  }

  /** calculateHyperVertexWeightNoEdge for one hyper-vertex: tally its
      out-edges into the component, then take the cheaper side as its cost,
      the in-side only when strictly cheaper. */
  method WeighOne(h: Hyper, scc: set<nat>) returns (h': Hyper)
    ensures Weighed(h, h', scc) && Priced(h')
  {
    var outAllRB, outCost := TallyOut(h, scc);
    if h.inCost < outCost {
      h' := h.(outAllRB := outAllRB, outCost := outCost, rollbackType := In, cost := h.inCost);
    } else {
      h' := h.(outAllRB := outAllRB, outCost := outCost, rollbackType := Out, cost := outCost);
    }
  }

  /** Weighing is a function of the record and the component: two priced
      weighings of one record agree. */
  lemma WeighedUnique(h: Hyper, a: Hyper, b: Hyper, scc: set<nat>)
    requires Weighed(h, a, scc) && Priced(a) && Weighed(h, b, scc) && Priced(b)
    ensures a == b
  {
    forall v | v in a.outAllRB
      ensures v in b.outAllRB && a.outAllRB[v] == b.outAllRB[v]
    {
      assert Count(a.outAllRB, v) == Count(b.outAllRB, v);
    }
    assert a.outAllRB.Keys == b.outAllRB.Keys;
  }

  /** calculateHyperVertexWeightNoEdge: every hyper-vertex of the component
      is weighed and inserted into `pq`; nothing outside it changes. */
  method CalculateWeights(hvs: map<nat, Hyper>, scc: set<nat>, pq: set<nat>) returns (hvs': map<nat, Hyper>, pq': set<nat>)
    requires scc <= hvs.Keys
    ensures hvs'.Keys == hvs.Keys && pq' == pq + scc
    ensures forall h :: h in scc ==> Weighed(hvs[h], hvs'[h], scc) && Priced(hvs'[h])
    ensures forall h :: h in hvs && h !in scc ==> hvs'[h] == hvs[h]
  {
    hvs', pq' := hvs, pq;
    var rest := scc;
    while rest != {}
      invariant rest <= scc && hvs'.Keys == hvs.Keys && pq' == pq + (scc - rest)
      invariant forall h :: h in scc - rest ==> Weighed(hvs[h], hvs'[h], scc) && Priced(hvs'[h])
      invariant forall h :: h in hvs && h !in scc - rest ==> hvs'[h] == hvs[h]
      decreases rest
    {
      var h :| h in rest;
      var weighed := WeighOne(hvs'[h], scc);
      hvs' := hvs'[h := weighed];
      pq' := pq' + {h};
      rest := rest - {h};
    }
  }

  // ---------------------------------------------------------------------
  // updateSCCandDependencyNoEdge

  /** The locals of rollbackNoEdge that the greedy selection threads
      through: the hyper-vertices, the component, `pq` (kept as the set of
      its members, ordered by `cmp` on their current costs), the queue and
      stack orders, and the rolled-back sub-transactions. */
  datatype Pass = Pass(hvs: map<nat, Hyper>, scc: set<nat>, pq: set<nat>,
                       queueOrder: seq<nat>, stackOrder: seq<nat>, rollbackTxs: set<string>)

  /** What an update never changes of a hyper-vertex: ids, edges, per-edge
      rollback sets and weights. */
  function Shape(h: Hyper): Hyper {
    h.(inAllRB := {}, inCost := 0.0, outAllRB := map[], outCost := 0.0, cost := 0.0, rollbackType := In)
  }

  /** Every hyper-vertex that left the component went exactly once onto the
      queue order or the stack order, behind what was there before. */
  ghost predicate Moved(s: Pass, s': Pass) {
    && s'.scc <= s.scc
    && s.queueOrder <= s'.queueOrder && s.stackOrder <= s'.stackOrder
    && multiset(s'.queueOrder[|s.queueOrder|..]) + multiset(s'.stackOrder[|s.stackOrder|..]) == multiset(s.scc - s'.scc)
  }

  /** Only hyper-vertices of the component change, and only in their
      tallies, costs and types. */
  ghost predicate Untouched(s: Pass, s': Pass) {
    && s'.hvs.Keys == s.hvs.Keys
    && (forall h :: h in s.hvs ==> Shape(s'.hvs[h]) == Shape(s.hvs[h]))
    && (forall h :: h in s.hvs && h !in s.scc ==> s'.hvs[h] == s.hvs[h])
  }

  /** As Untouched, and nothing more is rolled back. */
  ghost predicate Kept(s: Pass, s': Pass) {
    Untouched(s, s') && s'.rollbackTxs == s.rollbackTxs
  }

  /** `pq` holds exactly the component, whose hyper-vertices all exist. */
  ghost predicate Queued(s: Pass) {
    s.pq == s.scc && s.scc <= s.hvs.Keys
  }

  ghost predicate AllPriced(s: Pass) {
    forall h :: h in s.scc && h in s.hvs ==> Priced(s.hvs[h])
  }

  /** Weights are costs of sub-transactions, never negative. */
  ghost predicate NonNeg(hvs: map<nat, Hyper>) {
    forall h, o :: h in hvs ==> Weight(hvs[h].outWeights, o) >= 0.0
  }

  /** What rolling back a picked hyper-vertex adds to the result: the keys
      of its tally on its out-side, its in-rollback set on its in-side. */
  function RolledBack(h: Hyper): set<string> {
    if h.rollbackType == Out then h.outAllRB.Keys else h.inAllRB
  }

  /** What the picks, in order, add to the result. */
  function Gained(hvs: map<nat, Hyper>, picks: seq<nat>): set<string> {
    if picks == [] then {}
    else (if picks[0] in hvs then RolledBack(hvs[picks[0]]) else {}) + Gained(hvs, picks[1..])
  }

  /** A sub-transaction is gained exactly when one of the picks rolls it
      back. */
  lemma {:induction false} GainedSpec(hvs: map<nat, Hyper>, picks: seq<nat>, v: string)
    ensures v in Gained(hvs, picks) <==> exists k :: 0 <= k < |picks| && picks[k] in hvs && v in RolledBack(hvs[picks[k]])
    decreases |picks|
  {
    if picks != [] {
      GainedSpec(hvs, picks[1..], v);
      if v in Gained(hvs, picks[1..]) {
        var k :| 0 <= k < |picks[1..]| && picks[1..][k] in hvs && v in RolledBack(hvs[picks[1..][k]]);
        assert picks[k + 1] == picks[1..][k];
      }
      if exists k :: 0 <= k < |picks| && picks[k] in hvs && v in RolledBack(hvs[picks[k]]) {
        var k :| 0 <= k < |picks| && picks[k] in hvs && v in RolledBack(hvs[picks[k]]);
        if k > 0 {
          assert picks[1..][k - 1] == picks[k];
        }
      }
    }
  }

  lemma GainedCons(hvs: map<nat, Hyper>, rb: nat, more: seq<nat>)
    requires rb in hvs
    ensures Gained(hvs, [rb] + more) == RolledBack(hvs[rb]) + Gained(hvs, more)
  {
    assert ([rb] + more)[1..] == more;
  }

  /** Why a hyper-vertex is on the queue order: picked on its in-side, or
      dropped once its in-cost or its in-rollback set ran out. */
  ghost predicate QueueLeaver(h: Hyper, picked: bool) {
    if picked then h.rollbackType == In else h.inCost == 0.0 || h.inAllRB == {}
  }

  /** Why a hyper-vertex is on the stack order: picked on its out-side, or
      dropped once its out-cost or its tally ran out. */
  ghost predicate StackLeaver(h: Hyper, picked: bool) {
    if picked then h.rollbackType == Out else h.outCost == 0.0 || |h.outAllRB| == 0
  }

  /** Every hyper-vertex that joined one of the orders between `s` and `s'`
      joined the one its final record and being among `picks` call for. */
  ghost predicate Joined(s: Pass, s': Pass, picks: seq<nat>) {
    && (forall k :: |s.queueOrder| <= k < |s'.queueOrder| ==>
          s'.queueOrder[k] in s'.hvs && QueueLeaver(s'.hvs[s'.queueOrder[k]], s'.queueOrder[k] in picks))
    && (forall k :: |s.stackOrder| <= k < |s'.stackOrder| ==>
          s'.stackOrder[k] in s'.hvs && StackLeaver(s'.hvs[s'.stackOrder[k]], s'.stackOrder[k] in picks))
  }

  /** A hyper-vertex that joined an order left the component. */
  lemma JoinedLeft(a: Pass, b: Pass)
    requires Moved(a, b)
    ensures forall k :: |a.queueOrder| <= k < |b.queueOrder| ==> b.queueOrder[k] in a.scc && b.queueOrder[k] !in b.scc
    ensures forall k :: |a.stackOrder| <= k < |b.stackOrder| ==> b.stackOrder[k] in a.scc && b.stackOrder[k] !in b.scc
  {
    forall k | |a.queueOrder| <= k < |b.queueOrder|
      ensures b.queueOrder[k] in a.scc && b.queueOrder[k] !in b.scc
    {
      assert b.queueOrder[k] == b.queueOrder[|a.queueOrder|..][k - |a.queueOrder|];
      assert b.queueOrder[k] in multiset(a.scc - b.scc);
    }
    forall k | |a.stackOrder| <= k < |b.stackOrder|
      ensures b.stackOrder[k] in a.scc && b.stackOrder[k] !in b.scc
    {
      assert b.stackOrder[k] == b.stackOrder[|a.stackOrder|..][k - |a.stackOrder|];
      assert b.stackOrder[k] in multiset(a.scc - b.scc);
    }
  }

  lemma JoinedTrans(a: Pass, b: Pass, c: Pass, p1: seq<nat>, p2: seq<nat>)
    requires Moved(a, b) && Moved(b, c) && Untouched(b, c)
    requires Joined(a, b, p1) && Joined(b, c, p2)
    requires forall p :: p in p1 ==> p !in b.scc
    requires forall p :: p in p2 ==> p in b.scc
    ensures Joined(a, c, p1 + p2)
  {
    JoinedLeft(a, b);
    JoinedLeft(b, c);
    forall k | |a.queueOrder| <= k < |c.queueOrder|
      ensures c.queueOrder[k] in c.hvs && QueueLeaver(c.hvs[c.queueOrder[k]], c.queueOrder[k] in p1 + p2)
    {
      if k < |b.queueOrder| {
        assert c.queueOrder[k] == b.queueOrder[k];
      }
    }
    forall k | |a.stackOrder| <= k < |c.stackOrder|
      ensures c.stackOrder[k] in c.hvs && StackLeaver(c.hvs[c.stackOrder[k]], c.stackOrder[k] in p1 + p2)
    {
      if k < |b.stackOrder| {
        assert c.stackOrder[k] == b.stackOrder[k];
      }
    }
  }

  lemma MovedTrans(a: Pass, b: Pass, c: Pass)
    requires Moved(a, b) && Moved(b, c)
    ensures Moved(a, c)
  {
    assert c.queueOrder[|a.queueOrder|..] == b.queueOrder[|a.queueOrder|..] + c.queueOrder[|b.queueOrder|..];
    assert c.stackOrder[|a.stackOrder|..] == b.stackOrder[|a.stackOrder|..] + c.stackOrder[|b.stackOrder|..];
    assert a.scc - c.scc == (a.scc - b.scc) + (b.scc - c.scc);
    MultisetOfUnion(a.scc - b.scc, b.scc - c.scc);
  }

  lemma MultisetOfUnion(a: set<nat>, b: set<nat>)
    requires a * b == {}
    ensures multiset(a + b) == multiset(a) + multiset(b)
  {
    forall x ensures multiset(a + b)[x] == (multiset(a) + multiset(b))[x] {
      if x in a {
        assert x !in a * b;
      }
    }
  }

  /** Writing back a hyper-vertex of the component with the same shape. */
  lemma Touch(s: Pass, o: nat, x: Hyper)
    requires Queued(s) && o in s.scc && Shape(x) == Shape(s.hvs[o])
    ensures var s1 := s.(hvs := s.hvs[o := x]);
      && Queued(s1) && Moved(s, s1) && Kept(s, s1) && Joined(s, s1, [])
      && (AllPriced(s) && Priced(x) ==> AllPriced(s1))
      && (NonNeg(s.hvs) ==> NonNeg(s1.hvs))
  {
    var s1 := s.(hvs := s.hvs[o := x]);
    assert s1.queueOrder[|s.queueOrder|..] == [];
    assert s1.stackOrder[|s.stackOrder|..] == [];
    if NonNeg(s.hvs) {
      forall h, w | h in s1.hvs ensures Weight(s1.hvs[h].outWeights, w) >= 0.0 {
        assert Shape(s1.hvs[h]).outWeights == Shape(s.hvs[h]).outWeights;
      }
    }
  }

  /** The in-cost losing a non-negative weight keeps the hyper-vertex priced,
      repriced on its in-side when that became strictly cheaper. */
  lemma LessIn(h: Hyper, w: real)
    requires Priced(h) && w >= 0.0
    ensures var h1 := h.(inCost := h.inCost - w);
      if h1.inCost < h1.cost then Priced(h1.(cost := h1.inCost, rollbackType := In)) else Priced(h1)
  {
  }

  /** Likewise for the out-cost. */
  lemma LessOut(h: Hyper, w: real)
    requires Priced(h) && w >= 0.0
    ensures var h1 := h.(outCost := h.outCost - w);
      if h1.outCost < h1.cost then Priced(h1.(cost := h1.outCost, rollbackType := Out)) else Priced(h1)
  {
  }

  lemma KeptTrans(a: Pass, b: Pass, c: Pass)
    requires Kept(a, b) && Kept(b, c) && b.scc <= a.scc
    ensures Kept(a, c)
  {
  }

  lemma UntouchedTrans(a: Pass, b: Pass, c: Pass)
    requires Untouched(a, b) && Untouched(b, c) && b.scc <= a.scc
    ensures Untouched(a, c)
  {
  }

  lemma KeptNonNeg(a: Pass, b: Pass)
    requires Kept(a, b) && NonNeg(a.hvs)
    ensures NonNeg(b.hvs)
  {
    forall h, o | h in b.hvs ensures Weight(b.hvs[h].outWeights, o) >= 0.0 {
      assert Shape(b.hvs[h]).outWeights == Shape(a.hvs[h]).outWeights;
    }
  }

  /** The erase loop over a rollback set. */
  method EraseAll(s: set<string>, vs: set<string>) returns (r: set<string>)
    ensures r == s - vs
  {
    r := s;
    var rest := vs;
    while rest != {}
      invariant rest <= vs && r == s - (vs - rest)
      decreases rest
    {
      var v :| v in rest;
      r := r - {v};
      rest := rest - {v};
    }
  }

  /** The erase loop over a rollback set, on the tally's keys. */
  method EraseKeys(m: map<string, int>, vs: set<string>) returns (r: map<string, int>)
    ensures r == m - vs
  {
    r := m;
    var rest := vs;
    while rest != {}
      invariant rest <= vs && r == m - (vs - rest)
      decreases rest
    {
      var v :| v in rest;
      r := r - {v};
      rest := rest - {v};
    }
  }

  /** The decrement loop over a rollback set: a count of one is erased, any
      other count, a missing one read as 0 included, goes down by one. */
  method Uncount(m: map<string, int>, vs: set<string>) returns (r: map<string, int>)
    ensures forall v :: v !in vs ==> (v in r <==> v in m) && Count(r, v) == Count(m, v)
    ensures forall v :: v in vs ==> (v in r <==> Count(m, v) != 1) && Count(r, v) == if Count(m, v) == 1 then 0 else Count(m, v) - 1
    ensures r == Uncounted(m, vs)
  {
    r := m;
    var rest := vs;
    while rest != {}
      invariant rest <= vs
      invariant forall v :: v !in vs - rest ==> (v in r <==> v in m) && Count(r, v) == Count(m, v)
      invariant forall v :: v in vs - rest ==> (v in r <==> Count(m, v) != 1) && Count(r, v) == if Count(m, v) == 1 then 0 else Count(m, v) - 1
      decreases rest
    {
      var v :| v in rest;
      if Count(r, v) == 1 {
        r := r - {v};
      } else {
        r := r[v := Count(r, v) - 1];
      }
      rest := rest - {v};
    }
    assert forall v :: v in r <==> v in Uncounted(m, vs);
  }

  /** The tally the decrement loop leaves: a count of one is erased, any
      other count goes down by one, a missing one to -1. */
  function Uncounted(m: map<string, int>, vs: set<string>): map<string, int> {
    map v | v in m.Keys + vs && (v in vs ==> Count(m, v) != 1) :: if v in vs then Count(m, v) - 1 else Count(m, v)
  }

  // The specification of updateSCCandDependencyNoEdge.  The source walks
  // the neighbours of a leaver in the order of its unordered sets; the
  // model fixes one such order, ascending ids, so that the outcome is a
  // function of the state.

  /** A non-empty set of ids has a least one. */
  lemma {:induction false} SmallestExists(s: set<nat>)
    requires s != {}
    ensures exists m :: m in s && forall x :: x in s ==> m <= x
    decreases s
  {
    var y :| y in s;
    if s != {y} {
      SmallestExists(s - {y});
      var m :| m in s - {y} && forall x :: x in s - {y} ==> m <= x;
      forall x | x in s && x != y
        ensures m <= x
      {
        assert x in s - {y};
      }
    } else {
      assert forall x :: x in s ==> y <= x;
    }
  }

  /** The neighbour visited next. */
  ghost function Least(s: set<nat>): (m: nat)
    requires s != {}
    ensures m in s && forall x :: x in s ==> m <= x
  {
    SmallestExists(s);
    var m :| m in s && forall x :: x in s ==> m <= x; m
  }

  /** `o` forgets `rb`'s rollback set towards it, when `rb` was rolled back
      on its in-side. */
  function ForgetIn(h: Hyper, rbH: Hyper, o: nat): Hyper {
    if rbH.rollbackType == In then h.(inAllRB := h.inAllRB - Rollback(rbH.outRollback, o)) else h
  }

  /** The record an out-neighbour `o` of a leaver `rbH` is left with: its
      in-cost loses the weight of the edge from the leaver and becomes its
      cost when strictly cheaper; unless the in-cost reached 0 without that,
      it then forgets the leaver's rollback set. */
  function AfterOut(rbH: Hyper, o: nat, ho: Hyper): Hyper {
    var h := ho.(inCost := ho.inCost - Weight(rbH.outWeights, o));
    if h.inCost < h.cost then ForgetIn(h.(cost := h.inCost, rollbackType := In), rbH, o)
    else if h.inCost == 0.0 then h
    else ForgetIn(h, rbH, o)
  }

  /** Whether that out-neighbour then leaves for the queue order: its
      in-cost reached 0 without becoming its cost, or nothing is left of its
      in-rollback set. */
  predicate OutLeaves(rbH: Hyper, o: nat, ho: Hyper) {
    var inCost := ho.inCost - Weight(rbH.outWeights, o);
    (!(inCost < ho.cost) && inCost == 0.0) || AfterOut(rbH, o, ho).inAllRB == {}
  }

  /** `i` takes its rollback set towards the leaver `rb` off its tally: one
      count each when `rb` was rolled back on its out-side, whole entries
      otherwise. */
  function ForgetOut(h: Hyper, rb: nat, rbType: EdgeType): Hyper {
    h.(outAllRB := if rbType == Out then Uncounted(h.outAllRB, Rollback(h.outRollback, rb))
                   else h.outAllRB - Rollback(h.outRollback, rb))
  }

  /** The record an in-neighbour `i` of a leaver `rb` is left with: its
      out-cost loses its weight towards the leaver and becomes its cost when
      strictly cheaper; unless the out-cost reached 0 without that, its tally
      then forgets the leaver. */
  function AfterIn(rb: nat, rbType: EdgeType, hi: Hyper): Hyper {
    var h := hi.(outCost := hi.outCost - Weight(hi.outWeights, rb));
    if h.outCost < h.cost then ForgetOut(h.(cost := h.outCost, rollbackType := Out), rb, rbType)
    else if h.outCost == 0.0 then h
    else ForgetOut(h, rb, rbType)
  }

  /** Whether that in-neighbour then leaves for the stack order: its
      out-cost reached 0 without becoming its cost, or its tally is empty. */
  predicate InLeaves(rb: nat, rbType: EdgeType, hi: Hyper) {
    var outCost := hi.outCost - Weight(hi.outWeights, rb);
    (!(outCost < hi.cost) && outCost == 0.0) || |AfterIn(rb, rbType, hi).outAllRB| == 0
  }

  /** `o` joins the queue order (`toQueue`) or the stack order and leaves
      the component and `pq`. */
  function Leave(s: Pass, o: nat, toQueue: bool): Pass {
    var s1 := if toQueue then s.(queueOrder := s.queueOrder + [o]) else s.(stackOrder := s.stackOrder + [o]);
    s1.(scc := s1.scc - {o}, pq := s1.pq - {o})
  }

  /** A leaver `o` leaves, and the component is updated around it. */
  ghost function DropSpec(s: Pass, o: nat, toQueue: bool): (r: Pass)
    requires Queued(s) && o in s.scc
    ensures Queued(r) && r.scc <= s.scc - {o} && r.hvs.Keys == s.hvs.Keys
    decreases |s.scc|, 0, 0
  {
    UpdateSpec(Leave(s, o, toQueue), o)
  }

  /** updateSCCandDependencyNoEdge(scc, rb, ...): the out-neighbours of `rb`
      still in the component, then its in-neighbours, each in turn. */
  ghost function UpdateSpec(s: Pass, rb: nat): (r: Pass)
    requires Queued(s) && rb in s.hvs
    ensures Queued(r) && r.scc <= s.scc && r.hvs.Keys == s.hvs.Keys
    decreases |s.scc|, 3, 0
  {
    var rbH := s.hvs[rb];
    var s1 := OutLoop(s, rbH, rbH.outHv);
    SetOps.SubsetCardinality(s1.scc, s.scc);
    InLoop(s1, rb, rbH, rbH.inHv)
  }

  ghost function OutLoop(s: Pass, rbH: Hyper, rest: set<nat>): (r: Pass)
    requires Queued(s)
    ensures Queued(r) && r.scc <= s.scc && r.hvs.Keys == s.hvs.Keys
    decreases |s.scc|, 2, |rest|
  {
    if rest == {} then s
    else
      var o := Least(rest);
      var s1 := if o in s.scc then VisitOutSpec(s, rbH, o) else s;
      SetOps.SubsetCardinality(s1.scc, s.scc);
      OutLoop(s1, rbH, rest - {o})
  }

  ghost function InLoop(s: Pass, rb: nat, rbH: Hyper, rest: set<nat>): (r: Pass)
    requires Queued(s)
    ensures Queued(r) && r.scc <= s.scc && r.hvs.Keys == s.hvs.Keys
    decreases |s.scc|, 2, |rest|
  {
    if rest == {} then s
    else
      var i := Least(rest);
      var s1 := if i in s.scc then VisitInSpec(s, rb, rbH, i) else s;
      SetOps.SubsetCardinality(s1.scc, s.scc);
      InLoop(s1, rb, rbH, rest - {i})
  }

  ghost function VisitOutSpec(s: Pass, rbH: Hyper, o: nat): (r: Pass)
    requires Queued(s) && o in s.scc
    ensures Queued(r) && r.scc <= s.scc && r.hvs.Keys == s.hvs.Keys
    decreases |s.scc|, 1, 0
  {
    var s1 := s.(hvs := s.hvs[o := AfterOut(rbH, o, s.hvs[o])]);
    if OutLeaves(rbH, o, s.hvs[o]) then DropSpec(s1, o, true) else s1
  }

  ghost function VisitInSpec(s: Pass, rb: nat, rbH: Hyper, i: nat): (r: Pass)
    requires Queued(s) && i in s.scc
    ensures Queued(r) && r.scc <= s.scc && r.hvs.Keys == s.hvs.Keys
    decreases |s.scc|, 1, 0
  {
    var s1 := s.(hvs := s.hvs[i := AfterIn(rb, rbH.rollbackType, s.hvs[i])]);
    if InLeaves(rb, rbH.rollbackType, s.hvs[i]) then DropSpec(s1, i, false) else s1
  }

  /** Drop `o` from the component and `pq` onto the queue order (`toQueue`)
      or the stack order, then update the component around it.  `o` keeps
      its record from then on. */
  method Drop(s: Pass, o: nat, toQueue: bool) returns (s': Pass)
    requires Queued(s) && o in s.scc
    requires if toQueue then QueueLeaver(s.hvs[o], false) else StackLeaver(s.hvs[o], false)
    ensures s' == DropSpec(s, o, toQueue)
    ensures o !in s'.scc && o !in s'.pq && s'.hvs[o] == s.hvs[o]
    ensures if toQueue then |s'.queueOrder| > |s.queueOrder| && s'.queueOrder[|s.queueOrder|] == o
            else |s'.stackOrder| > |s.stackOrder| && s'.stackOrder[|s.stackOrder|] == o
    ensures Moved(s, s') && Kept(s, s') && Queued(s') && Joined(s, s', [])
    ensures NonNeg(s.hvs) && AllPriced(s) ==> AllPriced(s')
    decreases |s.scc|, 0
  {
    var s1 := Leave(s, o, toQueue);
    assert s.queueOrder + [o] == s1.queueOrder || s.stackOrder + [o] == s1.stackOrder;
    assert s.scc - s1.scc == {o};
    assert Moved(s, s1) && Joined(s, s1, []);
    s' := UpdateScc(s1, o);
    MovedTrans(s, s1, s');
    KeptTrans(s, s1, s');
    JoinedTrans(s, s1, s', [], []);
  }

  /** The out-loop body of updateSCCandDependencyNoEdge on the record of an
      out-neighbour `o` of the leaver `rbH`: its in-cost loses the weight of
      the edge from the leaver; it becomes in-priced if that is now cheaper,
      or leaves for the queue order if the in-cost reached 0; otherwise, when
      the leaver was rolled back on its in-side, it forgets the leaver's
      rollback set towards it, and leaves once nothing is left. */
  method OutRecord(rbH: Hyper, o: nat, ho: Hyper) returns (h: Hyper, leaves: bool)
    ensures h == AfterOut(rbH, o, ho) && leaves == OutLeaves(rbH, o, ho)
    ensures Shape(h) == Shape(ho) && (leaves ==> QueueLeaver(h, false))
    ensures Priced(ho) && Weight(rbH.outWeights, o) >= 0.0 ==> Priced(h)
  {
    if Priced(ho) && Weight(rbH.outWeights, o) >= 0.0 {
      LessIn(ho, Weight(rbH.outWeights, o));
    }
    h := ho.(inCost := ho.inCost - Weight(rbH.outWeights, o));
    if h.inCost < h.cost {
      h := h.(cost := h.inCost, rollbackType := In);
    } else if h.inCost == 0.0 {
      return h, true;
    }
    if rbH.rollbackType == In {
      var inAllRB := EraseAll(h.inAllRB, Rollback(rbH.outRollback, o));
      h := h.(inAllRB := inAllRB);
    }
    leaves := h.inAllRB == {};
  }

  /** The in-loop body on the record of an in-neighbour `i` of the leaver
      `rb`: its out-cost loses its weight towards `rb`; it becomes
      out-priced if that is now cheaper, or leaves for the stack order if
      the out-cost reached 0; otherwise it takes its rollback set towards
      `rb` off its tally (one count each when `rb` was rolled back on its
      out-side, whole entries otherwise), and leaves once the tally is
      empty. */
  method InRecord(rb: nat, rbType: EdgeType, hi: Hyper) returns (h: Hyper, leaves: bool)
    ensures h == AfterIn(rb, rbType, hi) && leaves == InLeaves(rb, rbType, hi)
    ensures Shape(h) == Shape(hi) && (leaves ==> StackLeaver(h, false))
    ensures Priced(hi) && Weight(hi.outWeights, rb) >= 0.0 ==> Priced(h)
  {
    if Priced(hi) && Weight(hi.outWeights, rb) >= 0.0 {
      LessOut(hi, Weight(hi.outWeights, rb));
    }
    h := hi.(outCost := hi.outCost - Weight(hi.outWeights, rb));
    if h.outCost < h.cost {
      h := h.(cost := h.outCost, rollbackType := Out);
    } else if h.outCost == 0.0 {
      return h, true;
    }
    h := ForgetTally(h, rb, rbType);
    leaves := |h.outAllRB| == 0;
  }

  /** The tally update of the in-loop body. */
  method ForgetTally(h: Hyper, rb: nat, rbType: EdgeType) returns (h': Hyper)
    ensures h' == ForgetOut(h, rb, rbType)
  {
    var outAllRB;
    if rbType == Out {
      outAllRB := Uncount(h.outAllRB, Rollback(h.outRollback, rb));
    } else {
      outAllRB := EraseKeys(h.outAllRB, Rollback(h.outRollback, rb));
    }
    h' := h.(outAllRB := outAllRB);
  }

  /** The out-loop body of updateSCCandDependencyNoEdge for an out-neighbour
      `o` of `rb` still in the component: `o` takes its new record and, when
      it leaves, joins the queue order and the component is updated around
      it. */
  method VisitOut(s: Pass, rb: nat, o: nat) returns (s': Pass)
    requires Queued(s) && rb in s.hvs && rb !in s.scc && o in s.scc
    ensures s' == VisitOutSpec(s, s.hvs[rb], o)
    ensures s'.hvs[o] == AfterOut(s.hvs[rb], o, s.hvs[o])
    ensures !OutLeaves(s.hvs[rb], o, s.hvs[o]) ==> s' == s.(hvs := s.hvs[o := AfterOut(s.hvs[rb], o, s.hvs[o])])
    ensures OutLeaves(s.hvs[rb], o, s.hvs[o]) ==>
      o !in s'.scc && |s'.queueOrder| > |s.queueOrder| && s'.queueOrder[|s.queueOrder|] == o
    ensures Moved(s, s') && Kept(s, s') && Queued(s') && Joined(s, s', [])
    ensures NonNeg(s.hvs) && AllPriced(s) ==> AllPriced(s')
    decreases |s.scc|, 1
  {
    var h, leaves := OutRecord(s.hvs[rb], o, s.hvs[o]);
    Touch(s, o, h);
    s' := s.(hvs := s.hvs[o := h]);
    if leaves {
      var s1 := s';
      s' := Drop(s1, o, true);
      MovedTrans(s, s1, s');
      KeptTrans(s, s1, s');
      JoinedTrans(s, s1, s', [], []);
    }
  }

  /** The in-loop body of updateSCCandDependencyNoEdge for an in-neighbour
      `i` of `rb` still in the component: `i` takes its new record and, when
      it leaves, joins the stack order and the component is updated around
      it. */
  method VisitIn(s: Pass, rb: nat, i: nat) returns (s': Pass)
    requires Queued(s) && rb in s.hvs && rb !in s.scc && i in s.scc
    ensures s' == VisitInSpec(s, rb, s.hvs[rb], i)
    ensures s'.hvs[i] == AfterIn(rb, s.hvs[rb].rollbackType, s.hvs[i])
    ensures !InLeaves(rb, s.hvs[rb].rollbackType, s.hvs[i]) ==> s' == s.(hvs := s.hvs[i := AfterIn(rb, s.hvs[rb].rollbackType, s.hvs[i])])
    ensures InLeaves(rb, s.hvs[rb].rollbackType, s.hvs[i]) ==>
      i !in s'.scc && |s'.stackOrder| > |s.stackOrder| && s'.stackOrder[|s.stackOrder|] == i
    ensures Moved(s, s') && Kept(s, s') && Queued(s') && Joined(s, s', [])
    ensures NonNeg(s.hvs) && AllPriced(s) ==> AllPriced(s')
    decreases |s.scc|, 1
  {
    var h, leaves := InRecord(rb, s.hvs[rb].rollbackType, s.hvs[i]);
    Touch(s, i, h);
    s' := s.(hvs := s.hvs[i := h]);
    if leaves {
      var s1 := s';
      s' := Drop(s1, i, false);
      MovedTrans(s, s1, s');
      KeptTrans(s, s1, s');
      JoinedTrans(s, s1, s', [], []);
    }
  }

  /** updateSCCandDependencyNoEdge(scc, rb, ...): visit `rb`'s out-neighbours,
      then its in-neighbours, each only while it is still in the component.
      Hyper-vertices leave the component only onto the two orders, and the
      remaining ones stay priced. */
  method UpdateScc(s: Pass, rb: nat) returns (s': Pass)
    requires Queued(s) && rb in s.hvs && rb !in s.scc
    ensures s' == UpdateSpec(s, rb)
    ensures Moved(s, s') && Kept(s, s') && Queued(s') && Joined(s, s', [])
    ensures NonNeg(s.hvs) && AllPriced(s) ==> AllPriced(s')
    decreases |s.scc|, 3
  {
    var mid := OutNeighbours(s, rb);
    SetOps.SubsetCardinality(mid.scc, s.scc);
    s' := InNeighbours(mid, rb);
    MovedTrans(s, mid, s');
    KeptTrans(s, mid, s');
    JoinedTrans(s, mid, s', [], []);
    if NonNeg(s.hvs) && AllPriced(s) {
      KeptNonNeg(s, mid);
    }
  }

  /** The out-loop of updateSCCandDependencyNoEdge. */
  method OutNeighbours(s: Pass, rb: nat) returns (s': Pass)
    requires Queued(s) && rb in s.hvs && rb !in s.scc
    ensures s' == OutLoop(s, s.hvs[rb], s.hvs[rb].outHv)
    ensures Moved(s, s') && Kept(s, s') && Queued(s') && Joined(s, s', [])
    ensures NonNeg(s.hvs) && AllPriced(s) ==> AllPriced(s')
    decreases |s.scc|, 2
  {
    var rbH := s.hvs[rb];
    s' := s;
    var rest := rbH.outHv;
    while rest != {}
      invariant Moved(s, s') && Kept(s, s') && Queued(s') && Joined(s, s', [])
      invariant NonNeg(s.hvs) && AllPriced(s) ==> AllPriced(s')
      invariant OutLoop(s', rbH, rest) == OutLoop(s, rbH, rbH.outHv)
      decreases rest
    {
      SmallestExists(rest);
      var o :| o in rest && forall x :: x in rest ==> o <= x;
      assert o == Least(rest);
      if o in s'.scc {
        var s1 := s';
        SetOps.SubsetCardinality(s1.scc, s.scc);
        s' := VisitOut(s1, rb, o);
        MovedTrans(s, s1, s');
        KeptTrans(s, s1, s');
        JoinedTrans(s, s1, s', [], []);
        if NonNeg(s.hvs) && AllPriced(s) {
          KeptNonNeg(s, s1);
        }
      }
      rest := rest - {o};
    }
  }

  /** The in-loop of updateSCCandDependencyNoEdge. */
  method InNeighbours(s: Pass, rb: nat) returns (s': Pass)
    requires Queued(s) && rb in s.hvs && rb !in s.scc
    ensures s' == InLoop(s, rb, s.hvs[rb], s.hvs[rb].inHv)
    ensures Moved(s, s') && Kept(s, s') && Queued(s') && Joined(s, s', [])
    ensures NonNeg(s.hvs) && AllPriced(s) ==> AllPriced(s')
    decreases |s.scc|, 2
  {
    var rbH := s.hvs[rb];
    s' := s;
    var rest := rbH.inHv;
    while rest != {}
      invariant Moved(s, s') && Kept(s, s') && Queued(s') && Joined(s, s', [])
      invariant NonNeg(s.hvs) && AllPriced(s) ==> AllPriced(s')
      invariant InLoop(s', rb, rbH, rest) == InLoop(s, rb, rbH, rbH.inHv)
      decreases rest
    {
      SmallestExists(rest);
      var i :| i in rest && forall x :: x in rest ==> i <= x;
      assert i == Least(rest);
      if i in s'.scc {
        var s1 := s';
        SetOps.SubsetCardinality(s1.scc, s.scc);
        s' := VisitIn(s1, rb, i);
        MovedTrans(s, s1, s');
        KeptTrans(s, s1, s');
        JoinedTrans(s, s1, s', [], []);
        if NonNeg(s.hvs) && AllPriced(s) {
          KeptNonNeg(s, s1);
        }
      }
      rest := rest - {i};
    }
  }

  // ---------------------------------------------------------------------
  // GreedySelectVertexNoEdge and rollbackNoEdge

  /** What `cmp` reads of a hyper-vertex. */
  function Rank(hvs: map<nat, Hyper>, h: nat): Ranked
    requires h in hvs
  {
    Ranked(hvs[h].cost, h)
  }

  /** `rb` is `pq.begin()`: every other member of `pq` comes after it under
      `cmp`, by cost and then by id. */
  predicate IsFirst(hvs: map<nat, Hyper>, pq: set<nat>, rb: nat) {
    && rb in pq && rb in hvs
    && forall h :: h in pq && h in hvs && h != rb ==> Cmp(Rank(hvs, rb), Rank(hvs, h))
  }

  /** A non-empty `pq` has a first element. */
  lemma {:induction false} FirstExists(hvs: map<nat, Hyper>, pq: set<nat>)
    requires pq != {} && pq <= hvs.Keys
    ensures exists rb :: IsFirst(hvs, pq, rb)
    decreases pq
  {
    var x :| x in pq;
    if pq == {x} {
      assert IsFirst(hvs, pq, x);
    } else {
      FirstExists(hvs, pq - {x});
      var y :| IsFirst(hvs, pq - {x}, y);
      if Cmp(Rank(hvs, x), Rank(hvs, y)) {
        forall h | h in pq && h in hvs && h != x
          ensures Cmp(Rank(hvs, x), Rank(hvs, h))
        {
          if h != y {
            CmpStrictTotal(Rank(hvs, x), Rank(hvs, y), Rank(hvs, h));
          }
        }
        assert IsFirst(hvs, pq, x);
      } else {
        CmpStrictTotal(Rank(hvs, x), Rank(hvs, y), Rank(hvs, y));
        assert IsFirst(hvs, pq, y);
      }
    }
  }

  /** Ids are distinct, so `pq` has only one first element. */
  lemma FirstUnique(hvs: map<nat, Hyper>, pq: set<nat>, a: nat, b: nat)
    requires IsFirst(hvs, pq, a) && IsFirst(hvs, pq, b)
    ensures a == b
  {
    if a != b {
      CmpStrictTotal(Rank(hvs, a), Rank(hvs, b), Rank(hvs, b));
    }
  }

  /** `pq.begin()`. */
  ghost function FirstOf(hvs: map<nat, Hyper>, pq: set<nat>): (rb: nat)
    requires pq != {} && pq <= hvs.Keys
    ensures IsFirst(hvs, pq, rb)
  {
    FirstExists(hvs, pq);
    var rb :| IsFirst(hvs, pq, rb); rb
  }

  /** Rolling back `rb`: the result gains what it rolls back, and it joins
      the queue order when rolled back on its in-side, the stack order
      otherwise. */
  function Take(s: Pass, rb: nat): Pass
    requires rb in s.hvs
  {
    Leave(s.(rollbackTxs := s.rollbackTxs + RolledBack(s.hvs[rb])), rb, s.hvs[rb].rollbackType == In)
  }

  /** One round of GreedySelectVertexNoEdge: the state after it, and its
      pick. */
  ghost function Round(s: Pass): (r: (Pass, nat))
    requires Queued(s) && s.pq != {}
    ensures Queued(r.0) && r.1 in s.scc && r.0.scc <= s.scc - {r.1} && r.0.hvs.Keys == s.hvs.Keys
  {
    var rb := FirstOf(s.hvs, s.pq);
    var t := Take(s, rb);
    (if |t.scc| > 1 then UpdateSpec(t, rb) else t, rb)
  }

  /** GreedySelectVertexNoEdge: the state the rounds end in, and the picks
      in order. */
  ghost function Greedy(s: Pass): (r: (Pass, seq<nat>))
    requires Queued(s) && s.pq != {}
    decreases |s.scc|
  {
    var first := Round(s);
    SetOps.SubsetCardinality(first.0.scc, s.scc - {first.1});
    if |first.0.scc| > 1 then
      var rest := Greedy(first.0);
      (rest.0, [first.1] + rest.1)
    else (first.0, [first.1])
  }

  /** The head of GreedySelectVertexNoEdge: the first hyper-vertex of `pq`
      is rolled back, on its out-side (the keys of its tally are rolled back,
      it goes onto the stack order) or on its in-side (its in-rollback set is
      rolled back, it goes onto the queue order), and leaves the component
      and `pq`. */
  method TakeFirst(s: Pass) returns (s': Pass, rb: nat)
    requires Queued(s) && s.pq != {}
    ensures IsFirst(s.hvs, s.pq, rb)
    ensures s'.hvs == s.hvs && s'.scc == s.scc - {rb} && s'.pq == s.pq - {rb}
    ensures s.hvs[rb].rollbackType == Out ==>
      s'.stackOrder == s.stackOrder + [rb] && s'.queueOrder == s.queueOrder && s'.rollbackTxs == s.rollbackTxs + s.hvs[rb].outAllRB.Keys
    ensures s.hvs[rb].rollbackType == In ==>
      s'.queueOrder == s.queueOrder + [rb] && s'.stackOrder == s.stackOrder && s'.rollbackTxs == s.rollbackTxs + s.hvs[rb].inAllRB
    ensures s' == Take(s, rb)
    ensures Moved(s, s') && Queued(s') && Joined(s, s', [rb])
  {
    FirstExists(s.hvs, s.pq);
    rb :| IsFirst(s.hvs, s.pq, rb);
    var h := s.hvs[rb];
    if h.rollbackType == Out {
      s' := s.(rollbackTxs := s.rollbackTxs + h.outAllRB.Keys, stackOrder := s.stackOrder + [rb]);
    } else {
      s' := s.(rollbackTxs := s.rollbackTxs + h.inAllRB, queueOrder := s.queueOrder + [rb]);
    }
    s' := s'.(scc := s'.scc - {rb}, pq := s'.pq - {rb});
    assert s.scc - s'.scc == {rb};
  }

  /** One round of GreedySelectVertexNoEdge: take the first hyper-vertex
      `rb` and, while more than one is left, update the component around
      it.  The result gains exactly what `rb` rolls back, and `rb`'s record
      stays as it was picked. */
  method Pick(s: Pass) returns (s': Pass, rb: nat)
    requires Queued(s) && s.pq != {}
    ensures IsFirst(s.hvs, s.pq, rb) && rb !in s'.scc && s'.scc <= s.scc - {rb}
    ensures rb in s'.hvs && s'.hvs[rb] == s.hvs[rb]
    ensures Moved(s, s') && Untouched(s, s') && Queued(s') && Joined(s, s', [rb])
    ensures s'.rollbackTxs == s.rollbackTxs + RolledBack(s.hvs[rb])
    ensures NonNeg(s.hvs) ==> NonNeg(s'.hvs)
    ensures NonNeg(s.hvs) && AllPriced(s) ==> AllPriced(s')
    ensures (s', rb) == Round(s)
  {
    s', rb := TakeFirst(s);
    FirstUnique(s.hvs, s.pq, rb, FirstOf(s.hvs, s.pq));
    ghost var taken := s';
    if |s'.scc| > 1 {
      var s1 := s';
      s' := UpdateScc(s1, rb);
      MovedTrans(s, s1, s');
      JoinedTrans(s, s1, s', [rb], []);
    }
    assert Kept(taken, s');
    if NonNeg(s.hvs) {
      KeptNonNeg(taken, s');
    }
    UntouchedTrans(s, taken, s');
  }

  /** GreedySelectVertexNoEdge: pick, and go on while more than one
      hyper-vertex is left.  Every hyper-vertex that leaves the component
      goes exactly once onto one of the two orders, at most one is left, and
      the result gains exactly what the picks roll back.  `picks` are the
      hyper-vertices taken as first of `pq`, in order; each joins the stack
      order when picked on its out-side and the queue order when picked on
      its in-side, and every other leaver joins the queue order once its
      in-cost or in-rollback set ran out, the stack order once its out-cost
      or tally did. */
  method GreedySelect(s: Pass) returns (s': Pass, ghost picks: seq<nat>)
    requires Queued(s) && s.pq != {}
    ensures Moved(s, s') && Untouched(s, s') && Queued(s') && |s'.scc| <= 1
    ensures picks != [] && forall p :: p in picks ==> p in s.scc && p !in s'.scc
    ensures Joined(s, s', picks)
    ensures s'.rollbackTxs == s.rollbackTxs + Gained(s'.hvs, picks)
    ensures NonNeg(s.hvs) && AllPriced(s) ==> AllPriced(s')
    ensures (s', picks) == Greedy(s)
    decreases |s.scc|
  {
    var rb;
    s', rb := Pick(s);
    ghost var more: seq<nat> := [];
    if |s'.scc| > 1 {
      var s1 := s';
      SetOps.SubsetCardinality(s1.scc, s.scc - {rb});
      s', more := GreedySelect(s1);
      MovedTrans(s, s1, s');
      UntouchedTrans(s, s1, s');
      JoinedTrans(s, s1, s', [rb], more);
      SumStep(s.rollbackTxs, RolledBack(s.hvs[rb]), s1.rollbackTxs, Gained(s'.hvs, more), s'.rollbackTxs);
    } else {
      assert [rb] + more == [rb];
    }
    picks := [rb] + more;
    GainedCons(s'.hvs, rb, more);
  }

  lemma SumStep(a: set<string>, r: set<string>, b: set<string>, g: set<string>, c: set<string>)
    requires b == a + r && c == b + g
    ensures c == a + (r + g)
  {
  }

  /** The pops of a stack, top first. */
  function Reversed(s: seq<nat>): (r: seq<nat>)
    ensures |r| == |s|
  {
    if s == [] then [] else [s[|s| - 1]] + Reversed(s[..|s| - 1])
  }

  lemma {:induction false} ReversedSame(s: seq<nat>)
    ensures multiset(Reversed(s)) == multiset(s)
    ensures forall k :: 0 <= k < |s| ==> Reversed(s)[k] == s[|s| - 1 - k]
  {
    if s != [] {
      ReversedSame(s[..|s| - 1]);
      assert s == s[..|s| - 1] + [s[|s| - 1]];
    }
  }

  /** The tail of rollbackNoEdge: pop the stack order onto the queue order. */
  method PopAll(queueOrder: seq<nat>, stackOrder: seq<nat>) returns (order: seq<nat>)
    ensures order == queueOrder + Reversed(stackOrder)
  {
    order := queueOrder;
    var stack := stackOrder;
    while |stack| > 0
      invariant order + Reversed(stack) == queueOrder + Reversed(stackOrder)
      decreases |stack|
    {
      order := order + [stack[|stack| - 1]];
      stack := stack[..|stack| - 1];
    }
  }

  /** loom::ReExecuteInfo. */
  datatype ReExecuteInfo = ReExecuteInfo(rollbackTxs: set<string>, serialOrder: seq<nat>)

  /** The serial order of a finished pass holds every hyper-vertex of the
      component exactly once. */
  lemma SerialComplete(start: Pass, s: Pass, tail: seq<nat>, order: seq<nat>)
    requires start.queueOrder == [] && start.stackOrder == [] && Moved(start, s)
    requires multiset(tail) == multiset(s.scc)
    requires order == s.queueOrder + tail + Reversed(s.stackOrder)
    ensures multiset(order) == multiset(start.scc)
  {
    var scc := start.scc;
    assert s.queueOrder == s.queueOrder[0..] && s.stackOrder == s.stackOrder[0..];
    ReversedSame(s.stackOrder);
    assert scc == (scc - s.scc) + s.scc;
    MultisetOfUnion(scc - s.scc, s.scc);
  }

  /** What is left in `pq` after the greedy selection: nothing or its one
      member. */
  lemma LastLeft(pq: set<nat>, head: nat)
    requires |pq| <= 1 && head in pq
    ensures pq == {head}
  {
    SetOps.SubsetCardinality({head}, pq);
  }

  /** The hyper-vertex left in `pq`, if any, as a sequence. */
  ghost function Remaining(pq: set<nat>): (r: seq<nat>)
    requires |pq| <= 1
    ensures multiset(r) == multiset(pq)
  {
    if pq == {} then [] else var h :| h in pq; LastLeft(pq, h); [h]
  }

  /** The second half of rollbackNoEdge: select greedily over the weighed
      component (`final` is the state the selection ends in, `picks` the
      hyper-vertices it took first), then the serial order is the queue
      order, the hyper-vertex left in `pq`, and the stack order popped; the
      result is what the picks roll back. */
  method SelectOrder(hvs: map<nat, Hyper>, scc: set<nat>)
    returns (hvs': map<nat, Hyper>, info: ReExecuteInfo, ghost final: Pass, ghost picks: seq<nat>)
    requires scc != {} && scc <= hvs.Keys
    ensures multiset(info.serialOrder) == multiset(scc)
    ensures hvs'.Keys == hvs.Keys && forall h :: h in hvs && h !in scc ==> hvs'[h] == hvs[h]
    ensures forall h :: h in scc ==> Shape(hvs'[h]) == Shape(hvs[h])
    ensures final.hvs == hvs' && final.pq == final.scc && |final.scc| <= 1
    ensures Moved(Pass(hvs', scc, scc, [], [], {}), final) && Joined(Pass(hvs', scc, scc, [], [], {}), final, picks)
    ensures picks != [] && forall p :: p in picks ==> p in scc && p !in final.scc
    ensures info.rollbackTxs == Gained(hvs', picks)
    ensures info.serialOrder == final.queueOrder + Remaining(final.pq) + Reversed(final.stackOrder)
    ensures (final, picks) == Greedy(Pass(hvs, scc, scc, [], [], {}))
  {
    var start := Pass(hvs, scc, scc, [], [], {});
    var s;
    s, picks := GreedySelect(start);
    var order := SerialOrder(start, s);
    hvs' := s.hvs;
    info := ReExecuteInfo(s.rollbackTxs, order);
    final := s;
  }

  /** The tail of rollbackNoEdge: the queue order, then the first of `pq`
      if one is left, then the stack order popped. */
  method SerialOrder(ghost start: Pass, s: Pass) returns (order: seq<nat>)
    requires start.queueOrder == [] && start.stackOrder == [] && Moved(start, s)
    requires Queued(s) && |s.scc| <= 1
    ensures order == s.queueOrder + Remaining(s.pq) + Reversed(s.stackOrder)
    ensures multiset(order) == multiset(start.scc)
  {
    var queueOrder := s.queueOrder;
    ghost var tail: seq<nat> := [];
    if s.pq != {} {
      FirstExists(s.hvs, s.pq);
      var head :| IsFirst(s.hvs, s.pq, head);
      queueOrder := queueOrder + [head];
      LastLeft(s.pq, head);
      tail := [head];
    }
    assert tail == Remaining(s.pq);
    order := PopAll(queueOrder, s.stackOrder);
    SerialComplete(start, s, tail, order);
  }

  /** rollbackNoEdge(scc) without fast mode: weigh the component, then
      select and order it.  Every hyper-vertex of the component is in the
      serial order exactly once, and no hyper-vertex outside the component
      changes. */
  method RollbackNoEdge(hvs: map<nat, Hyper>, scc: set<nat>)
    returns (hvs': map<nat, Hyper>, info: ReExecuteInfo, ghost weighed: map<nat, Hyper>, ghost final: Pass, ghost picks: seq<nat>)
    requires scc != {} && scc <= hvs.Keys
    ensures weighed.Keys == hvs.Keys && forall h :: h in hvs && h !in scc ==> weighed[h] == hvs[h]
    ensures forall h :: h in scc ==> Weighed(hvs[h], weighed[h], scc) && Priced(weighed[h])
    ensures (final, picks) == Greedy(Pass(weighed, scc, scc, [], [], {}))
    ensures multiset(info.serialOrder) == multiset(scc)
    ensures hvs'.Keys == hvs.Keys && forall h :: h in hvs && h !in scc ==> hvs'[h] == hvs[h]
    ensures forall h :: h in scc ==> Shape(hvs'[h]) == Shape(hvs[h])
    ensures final.hvs == hvs' && final.pq == final.scc && |final.scc| <= 1
    ensures Moved(Pass(hvs', scc, scc, [], [], {}), final) && Joined(Pass(hvs', scc, scc, [], [], {}), final, picks)
    ensures picks != [] && forall p :: p in picks ==> p in scc && p !in final.scc
    ensures info.rollbackTxs == Gained(hvs', picks)
    ensures info.serialOrder == final.queueOrder + Remaining(final.pq) + Reversed(final.stackOrder)
  {
    var w, pq := CalculateWeights(hvs, scc, {});
    assert pq == scc;
    weighed := w;
    hvs', info, final, picks := SelectOrder(w, scc);
  }
}
