/** The hyper-vertex graph of Loom's minimum-weight rollback
    (protocol/loom/MinWRollback.cpp): the per-hyper-vertex bookkeeping that a
    read-write dependency between two sub-transactions adds (onRWCNoEdge,
    onRWNoEdge), and recursiveUpdate, which spreads a smaller minimum id
    through the graph and keeps the `m_min2HyperVertex` buckets in step.

    A hyper-vertex pointer is its id; the hyper-vertices live in a map from
    id to record, so two pointers to the same hyper-vertex are one entry. */
module MinWGraph {
  import SetOps
  import opened MinWIndex

  /** loom::EdgeType as the rollback uses it: a hyper-vertex is rolled back
      either on its in-edges or on its out-edges. */
  datatype EdgeType = In | Out

  /** What the rollback reads of a sub-transaction (Vertex): its id, the id
      of its hyper-vertex, its cost, and the sub-transactions its rollback
      cascades to. */
  datatype Vertex = Vertex(id: string, hyperId: nat, cost: real, cascade: set<string>)

  /** The fields of a HyperVertex the rollback reads and writes. */
  datatype Hyper = Hyper(
    minIn: int32, minOut: int32,
    inHv: set<nat>, outHv: set<nat>,
    outRollback: map<nat, set<string>>, outWeights: map<nat, real>,
    inAllRB: set<string>, inCost: real,
    outAllRB: map<string, int>, outCost: real,
    cost: real, rollbackType: EdgeType)

  /** INT_MAX, the value of a minimum not yet set. */
  const IntMax: int32 := 0x7fff_ffff

  /** m_out_rollback[h], created empty by `operator[]` when absent. */
  function Rollback(outRollback: map<nat, set<string>>, h: nat): set<string> {
    if h in outRollback then outRollback[h] else {}
  }

  /** m_out_weights[h], created as 0.0 by `operator[]` when absent. */
  function Weight(outWeights: map<nat, real>, h: nat): real {
    if h in outWeights then outWeights[h] else 0.0
  }

  /** Every hyper-vertex an edge names is in the graph: the source's pointers
      are never dangling. */
  ghost predicate Closed(hvs: map<nat, Hyper>) {
    forall h :: h in hvs ==> hvs[h].inHv <= hvs.Keys && hvs[h].outHv <= hvs.Keys
  }

  /** In-edges mirror out-edges. */
  ghost predicate Mirrored(hvs: map<nat, Hyper>) {
    forall a, b :: a in hvs && b in hvs ==> (b in hvs[a].outHv <==> a in hvs[b].inHv)
  }

  // ---------------------------------------------------------------------
  // onRWCNoEdge

  /** The charge on the reader's side: the cascade of `rTx` joins the
      rollback set towards `whv`, and its cost the weight towards it. */
  function ChargeOut(h: Hyper, rTx: Vertex, whv: nat): Hyper {
    h.(outRollback := h.outRollback[whv := Rollback(h.outRollback, whv) + rTx.cascade],
       outWeights := h.outWeights[whv := Weight(h.outWeights, whv) + rTx.cost])
  }

  /** The charge on the writer's side: the cascade of `rTx` joins the
      in-rollback set, and its cost the in-cost. */
  function ChargeIn(h: Hyper, rTx: Vertex): Hyper {
    h.(inAllRB := h.inAllRB + rTx.cascade, inCost := h.inCost + rTx.cost)
  }

  /** The read side of onRWCNoEdge: the reader's hyper-vertex gains an
      out-edge to `whv`, and the cascade and cost of `rTx` are charged to it. */
  function AddOut(h: Hyper, rTx: Vertex, whv: nat): (r: Hyper)
    ensures r.outHv == h.outHv + {whv}
    ensures Rollback(r.outRollback, whv) == Rollback(h.outRollback, whv) + rTx.cascade
    ensures Weight(r.outWeights, whv) == Weight(h.outWeights, whv) + rTx.cost
    ensures forall x :: x != whv ==> Rollback(r.outRollback, x) == Rollback(h.outRollback, x)
    ensures forall x :: x != whv ==> Weight(r.outWeights, x) == Weight(h.outWeights, x)
    ensures r.(outHv := h.outHv, outRollback := h.outRollback, outWeights := h.outWeights) == h
  {
    ChargeOut(h.(outHv := h.outHv + {whv}), rTx, whv)
  }

  /** The write side of onRWCNoEdge: the writer's hyper-vertex gains an
      in-edge from `rhv`, and the cascade and cost of `rTx` are charged to its
      in-side. */
  function AddIn(h: Hyper, rTx: Vertex, rhv: nat): (r: Hyper)
    ensures r.inHv == h.inHv + {rhv}
    ensures r.inAllRB == h.inAllRB + rTx.cascade
    ensures r.inCost == h.inCost + rTx.cost
    ensures r.(inHv := h.inHv, inAllRB := h.inAllRB, inCost := h.inCost) == h
  {
    ChargeIn(h.(inHv := h.inHv + {rhv}), rTx)
  }

  /** MinWRollback::onRWCNoEdge for the dependency "rTx reads what wTx
      writes": the reader's side first, then the writer's. */
  function LinkNoEdge(hvs: map<nat, Hyper>, rTx: Vertex, wTx: Vertex): map<nat, Hyper>
    requires rTx.hyperId in hvs && wTx.hyperId in hvs
  {
    var rhv := rTx.hyperId;
    var whv := wTx.hyperId;
    var hvs1 := hvs[rhv := AddOut(hvs[rhv], rTx, whv)];
    hvs1[whv := AddIn(hvs1[whv], rTx, rhv)]
  }

  /** onRWCNoEdge links the writer into the reader's out-edges and the reader
      into the writer's in-edges, raises the reader's weight towards the
      writer and the writer's in-cost by exactly the reader's cost, and
      keeps the edge sets closed and mirrored. */
  lemma LinkNoEdgeSpec(hvs: map<nat, Hyper>, rTx: Vertex, wTx: Vertex)
    requires rTx.hyperId in hvs && wTx.hyperId in hvs
    ensures var hvs' := LinkNoEdge(hvs, rTx, wTx);
      && hvs'.Keys == hvs.Keys
      && wTx.hyperId in hvs'[rTx.hyperId].outHv
      && rTx.hyperId in hvs'[wTx.hyperId].inHv
      && Weight(hvs'[rTx.hyperId].outWeights, wTx.hyperId) == Weight(hvs[rTx.hyperId].outWeights, wTx.hyperId) + rTx.cost
      && hvs'[wTx.hyperId].inCost == hvs[wTx.hyperId].inCost + rTx.cost
      && rTx.cascade <= Rollback(hvs'[rTx.hyperId].outRollback, wTx.hyperId)
      && rTx.cascade <= hvs'[wTx.hyperId].inAllRB
      && (forall h :: h in hvs && h != rTx.hyperId && h != wTx.hyperId ==> hvs'[h] == hvs[h])
      && (Closed(hvs) ==> Closed(hvs'))
      && (Mirrored(hvs) ==> Mirrored(hvs'))
  {
    var rhv := rTx.hyperId;
    var whv := wTx.hyperId;
    var hvs1 := hvs[rhv := AddOut(hvs[rhv], rTx, whv)];
    var hvs' := hvs1[whv := AddIn(hvs1[whv], rTx, rhv)];
    assert hvs' == LinkNoEdge(hvs, rTx, wTx);
    if rhv != whv {
      assert hvs'[rhv] == hvs1[rhv];
    }
    if Mirrored(hvs) {
      forall a, b | a in hvs' && b in hvs'
        ensures b in hvs'[a].outHv <==> a in hvs'[b].inHv
      {
        assert b in hvs'[a].outHv <==> b in hvs[a].outHv || (a == rhv && b == whv);
        assert a in hvs'[b].inHv <==> a in hvs[b].inHv || (a == rhv && b == whv);
      }
    }
  }

  // ---------------------------------------------------------------------
  // recursiveUpdate

  /** The minimum a spread of type `t` updates: m_min_out for OUT, m_min_in
      for IN. */
  function MinOf(h: Hyper, t: EdgeType): int32 {
    if t == Out then h.minOut else h.minIn
  }

  function WithMin(h: Hyper, t: EdgeType, m: int32): (r: Hyper)
    ensures MinOf(r, t) == m
    ensures r.inHv == h.inHv && r.outHv == h.outHv
  {
    if t == Out then h.(minOut := m) else h.(minIn := m)
  }

  /** Where a new minimum spreads: an out-minimum back along in-edges, an
      in-minimum forward along out-edges. */
  function Spread(h: Hyper, t: EdgeType): set<nat> {
    if t == Out then h.inHv else h.outHv
  }

  /** `p` walks along spread edges of type `t`: each hyper-vertex after the
      first is a spread neighbour of the one before it. */
  ghost predicate Walk(hvs: map<nat, Hyper>, t: EdgeType, p: seq<nat>) {
    && (forall i :: 0 <= i < |p| ==> p[i] in hvs)
    && (forall i :: 0 <= i < |p| - 1 ==> p[i + 1] in Spread(hvs[p[i]], t))
  }

  /** `b` is reached from `a` by one or more spread edges of type `t`: the
      hyper-vertices a spread of type `t` from `a` can visit. */
  ghost predicate Reaches(hvs: map<nat, Hyper>, t: EdgeType, a: nat, b: nat) {
    exists p :: 1 < |p| && Walk(hvs, t, p) && p[0] == a && p[|p| - 1] == b
  }

  lemma ReachEdge(hvs: map<nat, Hyper>, t: EdgeType, a: nat, b: nat)
    requires a in hvs && b in hvs && b in Spread(hvs[a], t)
    ensures Reaches(hvs, t, a, b)
  {
    assert Walk(hvs, t, [a, b]);
  }

  lemma ReachTrans(hvs: map<nat, Hyper>, t: EdgeType, a: nat, b: nat, c: nat)
    requires Reaches(hvs, t, a, b) && Reaches(hvs, t, b, c)
    ensures Reaches(hvs, t, a, c)
  {
    var p :| 1 < |p| && Walk(hvs, t, p) && p[0] == a && p[|p| - 1] == b;
    var q :| 1 < |q| && Walk(hvs, t, q) && q[0] == b && q[|q| - 1] == c;
    var r := p + q[1..];
    forall i | 0 <= i < |r| - 1
      ensures r[i] in hvs && r[i + 1] in Spread(hvs[r[i]], t)
    {
      if i < |p| - 1 {
        assert r[i] == p[i] && r[i + 1] == p[i + 1];
      } else {
        assert r[i] == q[i - |p| + 1] && r[i + 1] == q[i - |p| + 2];
      }
    }
    assert r[|r| - 1] == q[|q| - 1];
    assert Walk(hvs, t, r);
  }

  /** A spread edge in front of a walk. */
  lemma ReachStep(hvs: map<nat, Hyper>, t: EdgeType, a: nat, b: nat, c: nat)
    requires a in hvs && b in hvs && b in Spread(hvs[a], t) && (c == b || Reaches(hvs, t, b, c))
    ensures Reaches(hvs, t, a, c)
  {
    ReachEdge(hvs, t, a, b);
    if c != b {
      ReachTrans(hvs, t, a, b, c);
    }
  }

  /** More spread edges reach no less. */
  lemma ReachMono(hvs: map<nat, Hyper>, hvs': map<nat, Hyper>, t: EdgeType, a: nat, b: nat)
    requires forall h :: h in hvs ==> h in hvs' && Spread(hvs[h], t) <= Spread(hvs'[h], t)
    requires Reaches(hvs, t, a, b)
    ensures Reaches(hvs', t, a, b)
  {
    var p :| 1 < |p| && Walk(hvs, t, p) && p[0] == a && p[|p| - 1] == b;
    assert Walk(hvs', t, p);
  }

  /** The hyper-vertices whose minimum of type `t` is still above `m`. */
  function Above(hvs: map<nat, Hyper>, t: EdgeType, m: int32): set<nat> {
    set h | h in hvs && MinOf(hvs[h], t) > m
  }

  /** Bucket `k` of m_min2HyperVertex, created empty by `operator[]`. */
  function Bucket(min2: map<int64, set<nat>>, k: int64): set<nat> {
    if k in min2 then min2[k] else {}
  }

  /** `h` is filed in bucket `k`. */
  predicate InBucket(min2: map<int64, set<nat>>, k: int64, h: nat) {
    h in Bucket(min2, k)
  }

  /** m_min2HyperVertex files exactly the hyper-vertices whose two minima
      are both set, each under the combined key of its minima. */
  ghost predicate Filed(hvs: map<nat, Hyper>, min2: map<int64, set<nat>>) {
    forall k, h :: InBucket(min2, k, h) <==>
      h in hvs && hvs[h].minIn != IntMax && hvs[h].minOut != IntMax && k == Combine(hvs[h].minIn, hvs[h].minOut)
  }

  /** The erase at the head of recursiveUpdate: out of the bucket of its
      pair of minima when both are set. */
  function Unfile(min2: map<int64, set<nat>>, hv: nat, h: Hyper): map<int64, set<nat>> {
    if h.minIn != IntMax && h.minOut != IntMax
    then min2[Combine(h.minIn, h.minOut) := Bucket(min2, Combine(h.minIn, h.minOut)) - {hv}]
    else min2
  }

  /** The bucket move of recursiveUpdate: out of the bucket of the old pair
      of minima, into the bucket of the new pair when the other minimum is
      set. */
  function Refile(min2: map<int64, set<nat>>, hv: nat, h: Hyper, t: EdgeType, m: int32): map<int64, set<nat>> {
    var min2a := Unfile(min2, hv, h);
    if t == Out then
      if h.minIn != IntMax then min2a[Combine(h.minIn, m) := Bucket(min2a, Combine(h.minIn, m)) + {hv}] else min2a
    else
      if h.minOut != IntMax then min2a[Combine(m, h.minOut) := Bucket(min2a, Combine(m, h.minOut)) + {hv}] else min2a
  }

  /** After the erase `hv` is in no bucket, and the others are where they were. */
  lemma UnfileFacts(hvs: map<nat, Hyper>, min2: map<int64, set<nat>>, hv: nat)
    requires hv in hvs && Filed(hvs, min2)
    ensures forall k :: !InBucket(Unfile(min2, hv, hvs[hv]), k, hv)
    ensures forall k, x :: x != hv ==> (InBucket(Unfile(min2, hv, hvs[hv]), k, x) <==> InBucket(min2, k, x))
  {
    var h := hvs[hv];
    forall k
      ensures !InBucket(Unfile(min2, hv, h), k, hv)
    {
      if h.minIn != IntMax && h.minOut != IntMax {
        if k != Combine(h.minIn, h.minOut) {
          assert !InBucket(min2, k, hv);
        }
      } else {
        assert !InBucket(min2, k, hv);
      }
    }
  }

  /** Moving `hv` to the bucket of its new minima keeps the buckets exact. */
  lemma RefileFiled(hvs: map<nat, Hyper>, min2: map<int64, set<nat>>, hv: nat, t: EdgeType, m: int32)
    requires hv in hvs && Filed(hvs, min2) && m != IntMax
    ensures Filed(hvs[hv := WithMin(hvs[hv], t, m)], Refile(min2, hv, hvs[hv], t, m))
  {
    var h := hvs[hv];
    var h' := WithMin(h, t, m);
    var hvs' := hvs[hv := h'];
    var min2a := Unfile(min2, hv, h);
    var min2' := Refile(min2, hv, h, t, m);
    UnfileFacts(hvs, min2, hv);
    assert h'.minIn == (if t == Out then h.minIn else m);
    assert h'.minOut == (if t == Out then m else h.minOut);
    forall k, x
      ensures InBucket(min2', k, x) <==>
        x in hvs' && hvs'[x].minIn != IntMax && hvs'[x].minOut != IntMax && k == Combine(hvs'[x].minIn, hvs'[x].minOut)
    {
      assert !InBucket(min2a, k, hv);
      if x != hv {
        assert InBucket(min2', k, x) <==> InBucket(min2a, k, x);
      }
    }
  }

  /** Changing nothing but minima of type `t`, each lowered to `m` or
      left alone. */
  ghost predicate Lowered(hvs: map<nat, Hyper>, hvs': map<nat, Hyper>, t: EdgeType, m: int32) {
    && hvs'.Keys == hvs.Keys
    && forall h :: h in hvs ==> hvs'[h] == hvs[h] || (MinOf(hvs[h], t) > m && hvs'[h] == WithMin(hvs[h], t, m))
  }

  lemma LoweredTrans(a: map<nat, Hyper>, b: map<nat, Hyper>, c: map<nat, Hyper>, t: EdgeType, m: int32)
    requires Lowered(a, b, t, m) && Lowered(b, c, t, m)
    ensures Lowered(a, c, t, m)
  {
    forall h | h in a
      ensures c[h] == a[h] || (MinOf(a[h], t) > m && c[h] == WithMin(a[h], t, m))
    {
      if b[h] != a[h] {
        assert MinOf(b[h], t) == m;
      }
    }
  }

  /** Lowering keeps the edge sets, so it keeps them closed, and it never
      raises a minimum. */
  lemma LoweredFacts(hvs: map<nat, Hyper>, hvs': map<nat, Hyper>, t: EdgeType, m: int32)
    requires Lowered(hvs, hvs', t, m)
    ensures forall h :: h in hvs ==> hvs'[h].inHv == hvs[h].inHv && hvs'[h].outHv == hvs[h].outHv
    ensures forall h :: h in hvs ==> MinOf(hvs'[h], t) <= MinOf(hvs[h], t)
    ensures forall h :: h in hvs && MinOf(hvs[h], t) <= m ==> hvs'[h] == hvs[h]
    ensures Closed(hvs) ==> Closed(hvs')
    ensures Above(hvs', t, m) <= Above(hvs, t, m)
  {
  }

  /** Lowering only touches one kind of minimum, so the other kind is as
      it was. */
  lemma LoweredOther(hvs: map<nat, Hyper>, hvs': map<nat, Hyper>, t: EdgeType, t': EdgeType, m: int32)
    requires Lowered(hvs, hvs', t, m) && t' != t
    ensures forall h :: h in hvs ==> MinOf(hvs'[h], t') == MinOf(hvs[h], t')
  {
  }

  /** Along the spread direction a neighbour's minimum is no larger,
      except at the hyper-vertices of `pending`. */
  ghost predicate SpreadFrom(hvs: map<nat, Hyper>, t: EdgeType, pending: set<nat>) {
    forall a, b :: a in hvs && b in hvs && b in Spread(hvs[a], t) && a !in pending ==>
      MinOf(hvs[b], t) <= MinOf(hvs[a], t)
  }

  /** As SpreadFrom, except that edges into `hv` may be out of step as long
      as lowering `hv` to `m` puts them back in step. */
  ghost predicate SpreadExcept(hvs: map<nat, Hyper>, t: EdgeType, pending: set<nat>, hv: nat, m: int32) {
    forall a, b :: a in hvs && b in hvs && b in Spread(hvs[a], t) && a !in pending ==>
      MinOf(hvs[b], t) <= MinOf(hvs[a], t) || (b == hv && m <= MinOf(hvs[a], t))
  }

  /** With every spread edge in step, a minimum is no larger than the
      minimum of any hyper-vertex it is reached from. */
  lemma {:induction false} WalkBound(hvs: map<nat, Hyper>, t: EdgeType, p: seq<nat>)
    requires 0 < |p| && Walk(hvs, t, p) && SpreadFrom(hvs, t, {})
    ensures MinOf(hvs[p[|p| - 1]], t) <= MinOf(hvs[p[0]], t)
    decreases |p|
  {
    if 1 < |p| {
      var q := p[..|p| - 1];
      assert Walk(hvs, t, q);
      WalkBound(hvs, t, q);
      assert p[|p| - 1] in Spread(hvs[q[|q| - 1]], t);
    }
  }

  lemma ReachBound(hvs: map<nat, Hyper>, t: EdgeType, a: nat, b: nat)
    requires Reaches(hvs, t, a, b) && SpreadFrom(hvs, t, {})
    ensures a in hvs && b in hvs && MinOf(hvs[b], t) <= MinOf(hvs[a], t)
  {
    var p :| 1 < |p| && Walk(hvs, t, p) && p[0] == a && p[|p| - 1] == b;
    WalkBound(hvs, t, p);
  }

  /** Setting `hv` to `m` leaves out of step only the edges out of `hv` and
      out of `pending`. */
  lemma SpreadStart(hvs: map<nat, Hyper>, t: EdgeType, pending: set<nat>, hv: nat, m: int32)
    requires hv in hvs && m < MinOf(hvs[hv], t)
    requires SpreadExcept(hvs, t, pending, hv, m)
    ensures SpreadFrom(hvs[hv := WithMin(hvs[hv], t, m)], t, pending + {hv})
  {
  }

  /** Once every neighbour of `hv` is at most `hv`'s minimum, `hv` need not
      stay pending. */
  lemma SpreadFinish(hvs: map<nat, Hyper>, t: EdgeType, pending: set<nat>, hv: nat)
    requires hv in hvs && SpreadFrom(hvs, t, pending + {hv})
    requires AtMost(hvs, Spread(hvs[hv], t), t, MinOf(hvs[hv], t))
    ensures SpreadFrom(hvs, t, pending)
  {
  }

  /** The pending hyper-vertices, all at `m`, stay at `m`. */
  lemma PendingStay(hvs: map<nat, Hyper>, hvs': map<nat, Hyper>, t: EdgeType, m: int32, pending: set<nat>)
    requires Lowered(hvs, hvs', t, m)
    requires forall p :: p in pending ==> p in hvs && MinOf(hvs[p], t) == m
    ensures forall p :: p in pending ==> p in hvs' && MinOf(hvs'[p], t) == m
  {
  }

  /** Every lowering below the starting state leaves fewer minima above `m`
      once `hv` is down. */
  lemma AboveShrinks(hvs: map<nat, Hyper>, hvs': map<nat, Hyper>, t: EdgeType, m: int32, hv: nat)
    requires Lowered(hvs, hvs', t, m) && hv in hvs && MinOf(hvs[hv], t) > m && MinOf(hvs'[hv], t) == m
    ensures |Above(hvs', t, m)| < |Above(hvs, t, m)|
  {
    LoweredFacts(hvs, hvs', t, m);
    SetOps.SubsetCardinality(Above(hvs', t, m), Above(hvs, t, m) - {hv});
  }

  /** Only `hv` and the hyper-vertices a spread of type `t` from `hv` can
      visit have changed. */
  ghost predicate Confined(hvs: map<nat, Hyper>, hvs': map<nat, Hyper>, t: EdgeType, hv: nat) {
    forall h :: h in hvs && h in hvs' && hvs'[h] != hvs[h] ==> h == hv || Reaches(hvs, t, hv, h)
  }

  /** What a spread from a neighbour `v` of `hv` changes, a spread from `hv`
      may change. */
  lemma ConfinedStep(hvs: map<nat, Hyper>, cur: map<nat, Hyper>, cur': map<nat, Hyper>, t: EdgeType, m: int32, hv: nat, v: nat)
    requires hv in hvs && v in hvs && v in Spread(hvs[hv], t)
    requires Lowered(hvs, cur, t, m) && Lowered(cur, cur', t, m)
    requires Confined(hvs, cur, t, hv) && Confined(cur, cur', t, v)
    ensures Confined(hvs, cur', t, hv)
  {
    LoweredFacts(hvs, cur, t, m);
    forall h | h in hvs && h in cur' && cur'[h] != hvs[h]
      ensures h == hv || Reaches(hvs, t, hv, h)
    {
      if cur[h] == hvs[h] {
        if h != v {
          ReachMono(cur, hvs, t, v, h);
        }
        ReachStep(hvs, t, hv, v, h);
      }
    }
  }

  lemma MoveOne(s: set<nat>, rest: set<nat>, v: nat)
    requires v in rest && rest <= s
    ensures s - rest + {v} == s - (rest - {v})
  {
  }

  /** The head of recursiveUpdate: `hv` leaves the bucket of its old pair of
      minima, if both were set, and joins the bucket of its new pair, if the
      other minimum is set. */
  method MoveBucket(min2: map<int64, set<nat>>, hv: nat, h: Hyper, t: EdgeType, m: int32)
    returns (min2': map<int64, set<nat>>)
    ensures min2' == Refile(min2, hv, h, t, m)
  {
    min2' := min2;
    if h.minIn != IntMax && h.minOut != IntMax {
      var key := Combine(h.minIn, h.minOut);
      min2' := min2'[key := Bucket(min2', key) - {hv}];
    }
    if t == Out {
      if h.minIn != IntMax {
        var key := Combine(h.minIn, m);
        min2' := min2'[key := Bucket(min2', key) + {hv}];
      }
    } else {
      if h.minOut != IntMax {
        var key := Combine(m, h.minOut);
        min2' := min2'[key := Bucket(min2', key) + {hv}];
      }
    }
  }

  /** Every hyper-vertex of `s` has a minimum of type `t` no larger than `m`. */
  ghost predicate AtMost(hvs: map<nat, Hyper>, s: set<nat>, t: EdgeType, m: int32) {
    forall c :: c in s && c in hvs ==> MinOf(hvs[c], t) <= m
  }

  /** Lowering keeps the visited neighbours at most `m`, and one more joins them. */
  lemma AtMostStep(before: map<nat, Hyper>, after: map<nat, Hyper>, s: set<nat>, v: nat, t: EdgeType, m: int32)
    requires before == after || Lowered(before, after, t, m)
    requires AtMost(before, s, t, m) && v in after && MinOf(after[v], t) <= m
    ensures AtMost(after, s + {v}, t, m)
  {
    if before != after {
      LoweredFacts(before, after, t, m);
    }
  }

  /** MinWRollback::recursiveUpdate: `hv`'s minimum of type `t` becomes `m`,
      its bucket in `min2` moves with it, and every neighbour in the spread
      direction whose minimum is above `m` is updated in turn.  The source
      calls it only with a value below the current minimum, which is also
      what makes the recursion end.  `pending` names the hyper-vertices of
      the enclosing calls, whose neighbours are still being visited. */
  method RecursiveUpdate(hvs: map<nat, Hyper>, min2: map<int64, set<nat>>, hv: nat, m: int32, t: EdgeType,
                         ghost pending: set<nat>)
    returns (hvs': map<nat, Hyper>, min2': map<int64, set<nat>>)
    requires Closed(hvs) && hv in hvs && m < MinOf(hvs[hv], t)
    requires forall p :: p in pending ==> p in hvs && MinOf(hvs[p], t) == m
    ensures Lowered(hvs, hvs', t, m) && MinOf(hvs'[hv], t) == m
    ensures Confined(hvs, hvs', t, hv)
    ensures Filed(hvs, min2) ==> Filed(hvs', min2')
    ensures SpreadExcept(hvs, t, pending, hv, m) ==> SpreadFrom(hvs', t, pending)
    decreases |Above(hvs, t, m)|, 0
  {
    var h := hvs[hv];
    min2' := MoveBucket(min2, hv, h, t, m);
    if Filed(hvs, min2) {
      RefileFiled(hvs, min2, hv, t, m);
    }
    hvs' := hvs[hv := WithMin(h, t, m)];
    ghost var inStep := SpreadExcept(hvs, t, pending, hv, m);
    if inStep {
      SpreadStart(hvs, t, pending, hv, m);
    }
    var rest := Spread(h, t);
    while rest != {}
      invariant rest <= Spread(h, t)
      invariant Lowered(hvs, hvs', t, m) && MinOf(hvs'[hv], t) == m
      invariant Confined(hvs, hvs', t, hv)
      invariant Filed(hvs, min2) ==> Filed(hvs', min2')
      invariant inStep ==> SpreadFrom(hvs', t, pending + {hv}) && AtMost(hvs', Spread(h, t) - rest, t, m)
      decreases rest
    {
      var v :| v in rest;
      AboveShrinks(hvs, hvs', t, m, hv);
      hvs', min2' := UpdateNeighbour(hvs, hvs', min2', hv, v, m, t, pending, Filed(hvs, min2), inStep, Spread(h, t) - rest);
      if inStep {
        MoveOne(Spread(h, t), rest, v);
      }
      rest := rest - {v};
    }
    LoweredFacts(hvs, hvs', t, m);
    if inStep {
      assert Spread(hvs'[hv], t) == Spread(h, t);
      SpreadFinish(hvs', t, pending, hv);
    }
  }

  /** One pass of recursiveUpdate's loop: the neighbour `v` of `hv` is
      updated in turn when its minimum is still above `m`.  `cur` is the
      state so far, lowered from the state `hvs` the call began with; `done`
      are the neighbours already visited. */
  method UpdateNeighbour(ghost hvs: map<nat, Hyper>, cur: map<nat, Hyper>, min2: map<int64, set<nat>>, hv: nat, v: nat,
                         m: int32, t: EdgeType, ghost pending: set<nat>, ghost filed: bool, ghost inStep: bool,
                         ghost done: set<nat>)
    returns (cur': map<nat, Hyper>, min2': map<int64, set<nat>>)
    requires Closed(hvs) && hv in hvs && v in Spread(hvs[hv], t)
    requires Lowered(hvs, cur, t, m) && MinOf(cur[hv], t) == m
    requires Confined(hvs, cur, t, hv)
    requires forall p :: p in pending ==> p in hvs && MinOf(hvs[p], t) == m
    requires filed ==> Filed(cur, min2)
    requires inStep ==> SpreadFrom(cur, t, pending + {hv}) && AtMost(cur, done, t, m)
    ensures Lowered(hvs, cur', t, m) && MinOf(cur'[hv], t) == m
    ensures Confined(hvs, cur', t, hv)
    ensures filed ==> Filed(cur', min2')
    ensures inStep ==> SpreadFrom(cur', t, pending + {hv}) && AtMost(cur', done + {v}, t, m)
    decreases |Above(cur, t, m)|, 1
  {
    cur', min2' := cur, min2;
    LoweredFacts(hvs, cur, t, m);
    if m < MinOf(cur[v], t) {
      PendingStay(hvs, cur, t, m, pending);
      cur', min2' := RecursiveUpdate(cur, min2, v, m, t, pending + {hv});
      LoweredTrans(hvs, cur, cur', t, m);
      LoweredFacts(cur, cur', t, m);
      ConfinedStep(hvs, cur, cur', t, m, hv, v);
    }
    if inStep {
      AtMostStep(cur, cur', done, v, t, m);
    }
  }

  // ---------------------------------------------------------------------
  // onRWNoEdge

  /** A hyper id as the source's `int`. */
  predicate IdFits(h: nat) {
    h < 0x8000_0000
  }

  function Min32(a: int32, b: int32): int32 {
    if a <= b then a else b
  }

  /** The out-minimum of a hyper-vertex is at most the id of each of its
      out-neighbours. */
  ghost predicate OutBound(hvs: map<nat, Hyper>) {
    forall a, b :: a in hvs && b in hvs[a].outHv ==> hvs[a].minOut as int <= b
  }

  /** The in-minimum of a hyper-vertex is at most the id of each of its
      in-neighbours. */
  ghost predicate InBound(hvs: map<nat, Hyper>) {
    forall a, b :: a in hvs && b in hvs[a].inHv ==> hvs[a].minIn as int <= b
  }

  /** The minima describe the graph: the out-minimum never grows back along
      an in-edge and the in-minimum never grows along an out-edge, and each
      is at most the ids of the neighbours it was taken from.  Hence the
      out-minimum bounds every id reachable forward and the in-minimum every
      id reachable backward. */
  ghost predicate MinsSound(hvs: map<nat, Hyper>) {
    SpreadFrom(hvs, Out, {}) && SpreadFrom(hvs, In, {}) && OutBound(hvs) && InBound(hvs)
  }

  /** Every minimum of type `t` that is set was taken from somewhere: it is
      the id of a hyper-vertex it is reached from along spread edges of
      type `t` (for the out-minimum, one its hyper-vertex reaches forward). */
  ghost predicate Attained(hvs: map<nat, Hyper>, t: EdgeType) {
    forall h :: h in hvs && MinOf(hvs[h], t) != IntMax ==>
      exists x :: Reaches(hvs, t, x, h) && MinOf(hvs[h], t) as int == x
  }

  /** The minima are sound and each that is set is attained: with mirrored
      edges, each is the least id its hyper-vertex reaches (see
      `ExactIsLeast`). */
  ghost predicate MinsExact(hvs: map<nat, Hyper>) {
    MinsSound(hvs) && Attained(hvs, Out) && Attained(hvs, In)
  }

  /** With mirrored edges, sound minima bound every id reached: a minimum
      of type `t` is at most the id of any hyper-vertex it is reached from. */
  lemma {:induction false} SoundIsLower(hvs: map<nat, Hyper>, t: EdgeType, x: nat, h: nat)
    requires MinsSound(hvs) && Mirrored(hvs) && Reaches(hvs, t, x, h)
    ensures h in hvs && MinOf(hvs[h], t) as int <= x
  {
    var p :| 1 < |p| && Walk(hvs, t, p) && p[0] == x && p[|p| - 1] == h;
    var q := p[1..];
    assert Walk(hvs, t, q);
    WalkBound(hvs, t, q);
    assert q[0] in Spread(hvs[x], t);
  }

  /** Exact minima are the least ids reached: every id a hyper-vertex is
      reached from bounds its minimum, and a set minimum is one of them. */
  lemma ExactIsLeast(hvs: map<nat, Hyper>, t: EdgeType, h: nat)
    requires MinsExact(hvs) && Mirrored(hvs) && h in hvs
    ensures forall x :: Reaches(hvs, t, x, h) ==> MinOf(hvs[h], t) as int <= x
    ensures MinOf(hvs[h], t) != IntMax ==> exists x :: Reaches(hvs, t, x, h) && MinOf(hvs[h], t) as int == x
  {
    forall x | Reaches(hvs, t, x, h)
      ensures MinOf(hvs[h], t) as int <= x
    {
      SoundIsLower(hvs, t, x, h);
    }
  }

  /** Every hyper-vertex of `a` is in `b` with at least its edges. */
  ghost predicate Grows(a: map<nat, Hyper>, b: map<nat, Hyper>) {
    forall h :: h in a ==> h in b && a[h].inHv <= b[h].inHv && a[h].outHv <= b[h].outHv
  }

  lemma ReachGrow(a: map<nat, Hyper>, b: map<nat, Hyper>, t: EdgeType, x: nat, y: nat)
    requires Grows(a, b) && Reaches(a, t, x, y)
    ensures Reaches(b, t, x, y)
  {
    ReachMono(a, b, t, x, y);
  }

  /** More edges and the same minima of type `t` keep them attained. */
  lemma AttainedKeep(a: map<nat, Hyper>, b: map<nat, Hyper>, t: EdgeType)
    requires Grows(a, b) && b.Keys == a.Keys && Attained(a, t)
    requires forall h :: h in a ==> MinOf(b[h], t) == MinOf(a[h], t)
    ensures Attained(b, t)
  {
    forall h | h in b && MinOf(b[h], t) != IntMax
      ensures exists x :: Reaches(b, t, x, h) && MinOf(b[h], t) as int == x
    {
      var x :| Reaches(a, t, x, h) && MinOf(a[h], t) as int == x;
      ReachGrow(a, b, t, x, h);
    }
  }

  /** The spread of onRWNoEdge keeps the minima attained: the minima it
      lowers, those of `hv` and of what a spread from `hv` visits, become
      the smaller of `src`'s id and `src`'s minimum, and the new edge from
      `src` to `hv` reaches them. */
  lemma AttainedAfter(a: map<nat, Hyper>, b: map<nat, Hyper>, t: EdgeType, src: nat, hv: nat)
    requires Grows(a, b) && b.Keys == a.Keys && Attained(a, t)
    requires src in a && hv in a && hv in Spread(b[src], t) && IdFits(src)
    requires forall h :: h in a ==>
      (MinOf(b[h], t) == MinOf(a[h], t) ||
       ((h == hv || Reaches(a, t, hv, h)) && MinOf(b[h], t) == Min32(MinOf(a[src], t), src as int32)))
    ensures Attained(b, t)
  {
    forall h | h in b && MinOf(b[h], t) != IntMax
      ensures exists x :: Reaches(b, t, x, h) && MinOf(b[h], t) as int == x
    {
      if MinOf(b[h], t) == MinOf(a[h], t) {
        var x :| Reaches(a, t, x, h) && MinOf(a[h], t) as int == x;
        ReachGrow(a, b, t, x, h);
      } else {
        if h != hv {
          ReachGrow(a, b, t, hv, h);
        }
        ReachStep(b, t, src, hv, h);
        if MinOf(b[h], t) != src as int32 {
          var x :| Reaches(a, t, x, src) && MinOf(a[src], t) as int == x;
          ReachGrow(a, b, t, x, src);
          ReachTrans(b, t, x, src, h);
        }
      }
    }
  }

  /** Same hyper-vertices, same edges, same minima of type `t`. */
  ghost predicate SameMins(hvs: map<nat, Hyper>, hvs': map<nat, Hyper>, t: EdgeType) {
    && hvs'.Keys == hvs.Keys
    && forall h :: h in hvs ==>
         hvs'[h].inHv == hvs[h].inHv && hvs'[h].outHv == hvs[h].outHv && MinOf(hvs'[h], t) == MinOf(hvs[h], t)
  }

  /** What depends only on the edges and the minima of one type carries over. */
  lemma SameMinsKeep(hvs: map<nat, Hyper>, hvs': map<nat, Hyper>, t: EdgeType, hv: nat, m: int32)
    requires SameMins(hvs, hvs', t)
    ensures SpreadFrom(hvs, t, {}) ==> SpreadFrom(hvs', t, {})
    ensures SpreadExcept(hvs, t, {}, hv, m) ==> SpreadExcept(hvs', t, {}, hv, m)
    ensures t == Out && OutBound(hvs) ==> OutBound(hvs')
    ensures t == In && InBound(hvs) ==> InBound(hvs')
    ensures Closed(hvs) ==> Closed(hvs')
  {
  }

  lemma SameMinsFiled(hvs: map<nat, Hyper>, hvs': map<nat, Hyper>, min2: map<int64, set<nat>>)
    requires SameMins(hvs, hvs', Out) && SameMins(hvs, hvs', In) && Filed(hvs, min2)
    ensures Filed(hvs', min2)
  {
    forall h | h in hvs
      ensures hvs'[h].minIn == hvs[h].minIn && hvs'[h].minOut == hvs[h].minOut
    {
      assert MinOf(hvs'[h], In) == MinOf(hvs[h], In);
      assert MinOf(hvs'[h], Out) == MinOf(hvs[h], Out);
    }
  }

  /** A lowering of one kind of minimum keeps the edges and the other kind. */
  lemma LoweredSame(hvs: map<nat, Hyper>, hvs': map<nat, Hyper>, t: EdgeType, t': EdgeType, m: int32)
    requires Lowered(hvs, hvs', t, m) && t' != t
    ensures SameMins(hvs, hvs', t')
  {
  }

  /** The first step of onRWNoEdge, the reader's hyper-vertex gaining the
      out-edge, leaves out of step only the new edge: its out-bound, and the
      in-minimum of the writer's side, which lowering it to the reader's
      in-minimum or id puts back. */
  lemma OutEdgeStep(hvs: map<nat, Hyper>, rhv: nat, whv: nat)
    requires rhv in hvs && whv in hvs && IdFits(rhv) && MinsSound(hvs)
    ensures var hvs1 := hvs[rhv := hvs[rhv].(outHv := hvs[rhv].outHv + {whv})];
      && SpreadFrom(hvs1, Out, {})
      && InBound(hvs1)
      && (forall a, b :: a in hvs1 && b in hvs1[a].outHv && !(a == rhv && b == whv) ==> hvs1[a].minOut as int <= b)
      && SpreadExcept(hvs1, In, {}, whv, Min32(hvs[rhv].minIn, rhv as int32))
  {
  }

  /** After the out-minimum update of onRWNoEdge the out-bounds hold again,
      and the reader's out-minimum is at most the writer's. */
  lemma OutUpdateStep(hvs1: map<nat, Hyper>, hvs2: map<nat, Hyper>, rhv: nat, whv: nat, m: int32)
    requires rhv in hvs1 && whv in hvs1 && IdFits(whv)
    requires m == Min32(hvs1[whv].minOut, whv as int32)
    requires forall a, b :: a in hvs1 && b in hvs1[a].outHv && !(a == rhv && b == whv) ==> hvs1[a].minOut as int <= b
    requires Lowered(hvs1, hvs2, Out, m) && hvs2[rhv].minOut <= m
    ensures OutBound(hvs2)
    ensures hvs2[rhv].minOut <= hvs2[whv].minOut
  {
    LoweredFacts(hvs1, hvs2, Out, m);
    assert hvs2[whv].minOut == hvs1[whv].minOut || hvs2[whv].minOut == m;
  }

  /** The writer's hyper-vertex gaining the in-edge keeps the out-minima in
      step, given the reader's out-minimum is at most the writer's, and
      leaves out of step only the new edge's in-bound. */
  lemma InEdgeStep(hvs3: map<nat, Hyper>, rhv: nat, whv: nat)
    requires rhv in hvs3 && whv in hvs3
    requires SpreadFrom(hvs3, Out, {}) && InBound(hvs3) && hvs3[rhv].minOut <= hvs3[whv].minOut
    ensures var hvs4 := hvs3[whv := hvs3[whv].(inHv := hvs3[whv].inHv + {rhv})];
      && SpreadFrom(hvs4, Out, {})
      && (forall a, b :: a in hvs4 && b in hvs4[a].inHv && !(a == whv && b == rhv) ==> hvs4[a].minIn as int <= b)
  {
  }

  /** After the in-minimum update the in-bounds hold again. */
  lemma InUpdateStep(hvs4: map<nat, Hyper>, hvs5: map<nat, Hyper>, rhv: nat, whv: nat, m: int32)
    requires rhv in hvs4 && whv in hvs4 && IdFits(rhv)
    requires m == Min32(hvs4[rhv].minIn, rhv as int32)
    requires forall a, b :: a in hvs4 && b in hvs4[a].inHv && !(a == whv && b == rhv) ==> hvs4[a].minIn as int <= b
    requires Lowered(hvs4, hvs5, In, m) && hvs5[whv].minIn <= m
    ensures InBound(hvs5)
  {
    LoweredFacts(hvs4, hvs5, In, m);
  }

  /** A hyper-vertex without its minima: what onRWCNoEdge and onRWNoEdge
      agree on. */
  function Unminned(h: Hyper): Hyper {
    h.(minIn := 0, minOut := 0)
  }

  /** Equal but for the minima. */
  ghost predicate SameUnminned(a: map<nat, Hyper>, b: map<nat, Hyper>) {
    a.Keys == b.Keys && forall h :: h in a ==> Unminned(a[h]) == Unminned(b[h])
  }

  /** Same hyper-vertices with the same minima. */
  ghost predicate SameMinima(a: map<nat, Hyper>, b: map<nat, Hyper>) {
    a.Keys == b.Keys && forall h :: h in a ==> a[h].minIn == b[h].minIn && a[h].minOut == b[h].minOut
  }

  lemma SameMinimaFiled(a: map<nat, Hyper>, b: map<nat, Hyper>, min2: map<int64, set<nat>>)
    requires SameMinima(a, b) && Filed(a, min2)
    ensures Filed(b, min2)
  {
  }

  lemma LoweredUnminned(a: map<nat, Hyper>, b: map<nat, Hyper>, t: EdgeType, m: int32)
    requires Lowered(a, b, t, m)
    ensures SameUnminned(a, b)
  {
  }

  /** Updating the same non-minimum fields of the same hyper-vertex in two
      maps equal but for the minima keeps them so. */
  lemma UnminnedUpdate(a: map<nat, Hyper>, b: map<nat, Hyper>, h: nat, x: Hyper, y: Hyper)
    requires SameUnminned(a, b) && h in a && Unminned(x) == Unminned(y)
    ensures SameUnminned(a[h := x], b[h := y])
  {
  }

  /** The guarded call of onRWNoEdge: spread `m` from `hv` only when it is
      below the minimum `hv` has. */
  method LowerTo(hvs: map<nat, Hyper>, min2: map<int64, set<nat>>, hv: nat, m: int32, t: EdgeType)
    returns (hvs': map<nat, Hyper>, min2': map<int64, set<nat>>)
    requires Closed(hvs) && hv in hvs
    ensures Lowered(hvs, hvs', t, m) && MinOf(hvs'[hv], t) <= m
    ensures Confined(hvs, hvs', t, hv)
    ensures Filed(hvs, min2) ==> Filed(hvs', min2')
    ensures SpreadExcept(hvs, t, {}, hv, m) ==> SpreadFrom(hvs', t, {})
    ensures SpreadExcept(hvs, t, {}, hv, m) ==> forall h :: h in hvs ==>
      MinOf(hvs'[h], t) == if h == hv || Reaches(hvs, t, hv, h) then Min32(MinOf(hvs[h], t), m) else MinOf(hvs[h], t)
  {
    if m < MinOf(hvs[hv], t) {
      hvs', min2' := RecursiveUpdate(hvs, min2, hv, m, t, {});
    } else {
      hvs', min2' := hvs, min2;
    }
    if SpreadExcept(hvs, t, {}, hv, m) {
      LoweredExact(hvs, hvs', t, m, hv);
    }
  }

  /** A lowering confined to what a spread from `hv` visits, that leaves
      every spread edge in step and `hv` at most `m`, takes exactly those
      hyper-vertices down to `m`. */
  lemma LoweredExact(hvs: map<nat, Hyper>, hvs': map<nat, Hyper>, t: EdgeType, m: int32, hv: nat)
    requires hv in hvs && Lowered(hvs, hvs', t, m) && MinOf(hvs'[hv], t) <= m
    requires Confined(hvs, hvs', t, hv) && SpreadFrom(hvs', t, {})
    ensures forall h :: h in hvs ==>
      MinOf(hvs'[h], t) == if h == hv || Reaches(hvs, t, hv, h) then Min32(MinOf(hvs[h], t), m) else MinOf(hvs[h], t)
  {
    LoweredFacts(hvs, hvs', t, m);
    forall h | h in hvs && Reaches(hvs, t, hv, h)
      ensures MinOf(hvs'[h], t) <= m
    {
      ReachMono(hvs, hvs', t, hv, h);
      ReachBound(hvs', t, hv, h);
    }
  }

  /** The minima half way through onRWNoEdge: sound but for the writer's
      in-minimum, which `m` bounds, and the new edge's in-bound. */
  ghost predicate HalfSound(hvs: map<nat, Hyper>, rhv: nat, whv: nat, m: int32)
    requires rhv in hvs && whv in hvs
  {
    && SpreadFrom(hvs, Out, {}) && OutBound(hvs) && InBound(hvs)
    && hvs[rhv].minOut <= hvs[whv].minOut
    && SpreadExcept(hvs, In, {}, whv, m)
  }

  /** Replacing a hyper-vertex by one with the same minima keeps the
      buckets exact; with edges into the graph it keeps the graph closed;
      with the same edges it keeps the edges and both kinds of minima. */
  lemma Replace(a: map<nat, Hyper>, h: nat, x: Hyper, min2: map<int64, set<nat>>)
    requires h in a && x.minIn == a[h].minIn && x.minOut == a[h].minOut
    ensures Filed(a, min2) ==> Filed(a[h := x], min2)
    ensures Closed(a) && x.inHv <= a.Keys && x.outHv <= a.Keys ==> Closed(a[h := x])
    ensures x.inHv == a[h].inHv && x.outHv == a[h].outHv ==> SameMins(a, a[h := x], Out) && SameMins(a, a[h := x], In)
  {
  }

  /** The charges of both sides leave maps equal but for the minima so. */
  lemma UnminnedCharge(a: map<nat, Hyper>, b: map<nat, Hyper>, h: nat, rTx: Vertex, whv: nat)
    requires SameUnminned(a, b) && h in a
    ensures SameUnminned(a[h := ChargeOut(a[h], rTx, whv)], b[h := ChargeOut(b[h], rTx, whv)])
    ensures SameUnminned(a[h := ChargeIn(a[h], rTx)], b[h := ChargeIn(b[h], rTx)])
  {
    assert Unminned(a[h]) == Unminned(b[h]);
  }

  /** Neither charge touches an edge or a minimum. */
  lemma ChargeSame(a: map<nat, Hyper>, h: nat, rTx: Vertex, whv: nat)
    requires h in a
    ensures SameMins(a, a[h := ChargeOut(a[h], rTx, whv)], Out) && SameMins(a, a[h := ChargeOut(a[h], rTx, whv)], In)
    ensures SameMins(a, a[h := ChargeIn(a[h], rTx)], Out) && SameMins(a, a[h := ChargeIn(a[h], rTx)], In)
  {
  }

  /** What the minima satisfy survives either charge. */
  lemma ChargeKeeps(a: map<nat, Hyper>, h: nat, rhv: nat, whv: nat, m: int32, rTx: Vertex)
    requires h in a && rhv in a && whv in a
    ensures HalfSound(a, rhv, whv, m) ==> HalfSound(a[h := ChargeOut(a[h], rTx, whv)], rhv, whv, m)
    ensures MinsSound(a) ==> MinsSound(a[h := ChargeIn(a[h], rTx)])
  {
    ChargeSame(a, h, rTx, whv);
    SameMinsKeep(a, a[h := ChargeOut(a[h], rTx, whv)], Out, whv, m);
    SameMinsKeep(a, a[h := ChargeOut(a[h], rTx, whv)], In, whv, m);
    SameMinsKeep(a, a[h := ChargeIn(a[h], rTx)], Out, whv, m);
    SameMinsKeep(a, a[h := ChargeIn(a[h], rTx)], In, whv, m);
  }

  lemma UnminnedAddIn(a: map<nat, Hyper>, b: map<nat, Hyper>, h: nat, rTx: Vertex)
    requires SameUnminned(a, b) && h in a
    ensures SameUnminned(a[h := AddIn(a[h], rTx, rTx.hyperId)], b[h := AddIn(b[h], rTx, rTx.hyperId)])
  {
    assert Unminned(a[h]) == Unminned(b[h]);
  }

  lemma UnminnedTrans(a: map<nat, Hyper>, b: map<nat, Hyper>, c: map<nat, Hyper>)
    requires SameUnminned(a, b) && SameUnminned(b, c)
    ensures SameUnminned(a, c)
  {
  }

  lemma Overwrite(a: map<nat, Hyper>, k: nat, x: Hyper, y: Hyper)
    ensures a[k := x][k := y] == a[k := y]
  {
  }

  /** The edge insertions of onRWNoEdge: `whv` into the reader's out-edges,
      `rhv` into the writer's in-edges. */
  function EdgeOut(hvs: map<nat, Hyper>, rhv: nat, whv: nat): map<nat, Hyper>
    requires rhv in hvs
  {
    hvs[rhv := hvs[rhv].(outHv := hvs[rhv].outHv + {whv})]
  }

  function EdgeIn(hvs: map<nat, Hyper>, whv: nat, rhv: nat): map<nat, Hyper>
    requires whv in hvs
  {
    hvs[whv := hvs[whv].(inHv := hvs[whv].inHv + {rhv})]
  }

  /** An edge between hyper-vertices of a closed graph keeps it closed and
      touches no minimum. */
  lemma EdgeFacts(hvs: map<nat, Hyper>, min2: map<int64, set<nat>>, rhv: nat, whv: nat)
    requires Closed(hvs) && rhv in hvs && whv in hvs
    ensures Closed(EdgeOut(hvs, rhv, whv)) && Closed(EdgeIn(hvs, whv, rhv))
    ensures Filed(hvs, min2) ==> Filed(EdgeOut(hvs, rhv, whv), min2) && Filed(EdgeIn(hvs, whv, rhv), min2)
  {
    Replace(hvs, rhv, EdgeOut(hvs, rhv, whv)[rhv], min2);
    Replace(hvs, whv, EdgeIn(hvs, whv, rhv)[whv], min2);
  }

  /** Soundness through the reader's half of onRWNoEdge: the edge, the
      lowering, the charge. */
  lemma OutSideSound(hvs: map<nat, Hyper>, hvs2: map<nat, Hyper>, rTx: Vertex, whv: nat, minOut: int32)
    requires rTx.hyperId in hvs && whv in hvs && IdFits(rTx.hyperId) && IdFits(whv) && MinsSound(hvs)
    requires minOut == Min32(hvs[whv].minOut, whv as int32)
    requires Lowered(EdgeOut(hvs, rTx.hyperId, whv), hvs2, Out, minOut)
    requires hvs2[rTx.hyperId].minOut <= minOut
    requires SpreadExcept(EdgeOut(hvs, rTx.hyperId, whv), Out, {}, rTx.hyperId, minOut) ==> SpreadFrom(hvs2, Out, {})
    ensures HalfSound(hvs2[rTx.hyperId := ChargeOut(hvs2[rTx.hyperId], rTx, whv)], rTx.hyperId, whv,
                      Min32(hvs[rTx.hyperId].minIn, rTx.hyperId as int32))
  {
    var rhv := rTx.hyperId;
    var hvs1 := EdgeOut(hvs, rhv, whv);
    OutEdgeStep(hvs, rhv, whv);
    LoweredFacts(hvs1, hvs2, Out, minOut);
    LoweredSame(hvs1, hvs2, Out, In, minOut);
    OutUpdateStep(hvs1, hvs2, rhv, whv, minOut);
    SameMinsKeep(hvs1, hvs2, In, whv, Min32(hvs[rhv].minIn, rhv as int32));
    assert HalfSound(hvs2, rhv, whv, Min32(hvs[rhv].minIn, rhv as int32));
    ChargeKeeps(hvs2, rhv, rhv, whv, Min32(hvs[rhv].minIn, rhv as int32), rTx);
  }

  /** Soundness through the writer's half of onRWNoEdge. */
  lemma InSideSound(hvs: map<nat, Hyper>, hvs5: map<nat, Hyper>, rTx: Vertex, whv: nat, minIn: int32)
    requires rTx.hyperId in hvs && whv in hvs && IdFits(rTx.hyperId) && IdFits(whv)
    requires minIn == Min32(hvs[rTx.hyperId].minIn, rTx.hyperId as int32) && HalfSound(hvs, rTx.hyperId, whv, minIn)
    requires Lowered(EdgeIn(hvs, whv, rTx.hyperId), hvs5, In, minIn)
    requires hvs5[whv].minIn <= minIn
    requires SpreadExcept(EdgeIn(hvs, whv, rTx.hyperId), In, {}, whv, minIn) ==> SpreadFrom(hvs5, In, {})
    ensures MinsSound(hvs5[whv := ChargeIn(hvs5[whv], rTx)])
  {
    var rhv := rTx.hyperId;
    var hvs4 := EdgeIn(hvs, whv, rhv);
    InEdgeStep(hvs, rhv, whv);
    assert SpreadExcept(hvs4, In, {}, whv, minIn);
    assert OutBound(hvs4);
    LoweredFacts(hvs4, hvs5, In, minIn);
    LoweredSame(hvs4, hvs5, In, Out, minIn);
    InUpdateStep(hvs4, hvs5, rhv, whv, minIn);
    SameMinsKeep(hvs4, hvs5, Out, whv, minIn);
    assert MinsSound(hvs5);
    ChargeKeeps(hvs5, whv, rhv, whv, minIn, rTx);
  }

  /** What the reader's half of onRWNoEdge leaves of the graph and the
      buckets, from what the lowering promises. */
  lemma OutSideFrame(hvs: map<nat, Hyper>, min2: map<int64, set<nat>>, hvs2: map<nat, Hyper>, min2': map<int64, set<nat>>,
                     rTx: Vertex, whv: nat, minOut: int32)
    requires Closed(hvs) && rTx.hyperId in hvs && whv in hvs
    requires Lowered(EdgeOut(hvs, rTx.hyperId, whv), hvs2, Out, minOut)
    requires Filed(EdgeOut(hvs, rTx.hyperId, whv), min2) ==> Filed(hvs2, min2')
    ensures var hvs' := hvs2[rTx.hyperId := ChargeOut(hvs2[rTx.hyperId], rTx, whv)];
      && Closed(hvs') && hvs'.Keys == hvs.Keys && hvs'[rTx.hyperId].minIn == hvs[rTx.hyperId].minIn
      && (Filed(hvs, min2) ==> Filed(hvs', min2'))
  {
    var rhv := rTx.hyperId;
    var hvs1 := EdgeOut(hvs, rhv, whv);
    EdgeFacts(hvs, min2, rhv, whv);
    LoweredFacts(hvs1, hvs2, Out, minOut);
    LoweredSame(hvs1, hvs2, Out, In, minOut);
    Replace(hvs2, rhv, ChargeOut(hvs2[rhv], rTx, whv), min2');
  }

  /** The reader's half of onRWNoEdge changes what onRWCNoEdge changes, and
      beyond that only minima. */
  lemma OutSideUnminned(hvs: map<nat, Hyper>, hvs2: map<nat, Hyper>, rTx: Vertex, whv: nat, minOut: int32)
    requires rTx.hyperId in hvs && Lowered(EdgeOut(hvs, rTx.hyperId, whv), hvs2, Out, minOut)
    ensures SameUnminned(hvs2[rTx.hyperId := ChargeOut(hvs2[rTx.hyperId], rTx, whv)],
                         hvs[rTx.hyperId := AddOut(hvs[rTx.hyperId], rTx, whv)])
  {
    var rhv := rTx.hyperId;
    var hvs1 := EdgeOut(hvs, rhv, whv);
    LoweredUnminned(hvs1, hvs2, Out, minOut);
    UnminnedCharge(hvs2, hvs1, rhv, rTx, whv);
    Overwrite(hvs, rhv, hvs1[rhv], ChargeOut(hvs1[rhv], rTx, whv));
  }

  /** What the writer's half of onRWNoEdge leaves of the graph and the
      buckets. */
  lemma InSideFrame(hvs: map<nat, Hyper>, min2: map<int64, set<nat>>, hvs5: map<nat, Hyper>, min2': map<int64, set<nat>>,
                    rTx: Vertex, whv: nat, minIn: int32)
    requires Closed(hvs) && rTx.hyperId in hvs && whv in hvs
    requires Lowered(EdgeIn(hvs, whv, rTx.hyperId), hvs5, In, minIn)
    requires Filed(EdgeIn(hvs, whv, rTx.hyperId), min2) ==> Filed(hvs5, min2')
    ensures var hvs' := hvs5[whv := ChargeIn(hvs5[whv], rTx)];
      && Closed(hvs') && hvs'.Keys == hvs.Keys
      && (Filed(hvs, min2) ==> Filed(hvs', min2'))
  {
    var hvs4 := EdgeIn(hvs, whv, rTx.hyperId);
    EdgeFacts(hvs, min2, rTx.hyperId, whv);
    LoweredFacts(hvs4, hvs5, In, minIn);
    Replace(hvs5, whv, ChargeIn(hvs5[whv], rTx), min2');
  }

  /** The writer's half of onRWNoEdge changes what onRWCNoEdge changes, and
      beyond that only minima. */
  lemma InSideUnminned(hvs: map<nat, Hyper>, hvs5: map<nat, Hyper>, rTx: Vertex, whv: nat, minIn: int32)
    requires whv in hvs && Lowered(EdgeIn(hvs, whv, rTx.hyperId), hvs5, In, minIn)
    ensures SameUnminned(hvs5[whv := ChargeIn(hvs5[whv], rTx)], hvs[whv := AddIn(hvs[whv], rTx, rTx.hyperId)])
  {
    var hvs4 := EdgeIn(hvs, whv, rTx.hyperId);
    LoweredUnminned(hvs4, hvs5, In, minIn);
    UnminnedCharge(hvs5, hvs4, whv, rTx, whv);
    Overwrite(hvs, whv, hvs4[whv], ChargeIn(hvs4[whv], rTx));
  }

  /** Of the minima, the reader's half of onRWNoEdge leaves the in-minima
      alone and lowers to `minOut` only out-minima of the reader's
      hyper-vertex and of the hyper-vertices that reach it. */
  lemma OutSideMins(hvs: map<nat, Hyper>, hvs2: map<nat, Hyper>, rTx: Vertex, whv: nat, minOut: int32)
    requires rTx.hyperId in hvs && whv in hvs
    requires Lowered(EdgeOut(hvs, rTx.hyperId, whv), hvs2, Out, minOut)
    requires Confined(EdgeOut(hvs, rTx.hyperId, whv), hvs2, Out, rTx.hyperId)
    ensures var hvs' := hvs2[rTx.hyperId := ChargeOut(hvs2[rTx.hyperId], rTx, whv)];
      && (forall h :: h in hvs ==> MinOf(hvs'[h], In) == MinOf(hvs[h], In))
      && (forall h :: h in hvs ==>
            (MinOf(hvs'[h], Out) == MinOf(hvs[h], Out) ||
             ((h == rTx.hyperId || Reaches(hvs, Out, rTx.hyperId, h)) && MinOf(hvs'[h], Out) == minOut)))
  {
    var rhv := rTx.hyperId;
    var hvs1 := EdgeOut(hvs, rhv, whv);
    LoweredFacts(hvs1, hvs2, Out, minOut);
    LoweredOther(hvs1, hvs2, Out, In, minOut);
    forall h | h in hvs && hvs2[h] != hvs1[h] && h != rhv
      ensures Reaches(hvs, Out, rhv, h)
    {
      ReachMono(hvs1, hvs, Out, rhv, h);
    }
  }

  /** Of the minima, the writer's half of onRWNoEdge leaves the out-minima
      alone and lowers to `minIn` only in-minima of the writer's
      hyper-vertex and of the hyper-vertices it reaches. */
  lemma InSideMins(hvs: map<nat, Hyper>, hvs5: map<nat, Hyper>, rTx: Vertex, whv: nat, minIn: int32)
    requires whv in hvs
    requires Lowered(EdgeIn(hvs, whv, rTx.hyperId), hvs5, In, minIn)
    requires Confined(EdgeIn(hvs, whv, rTx.hyperId), hvs5, In, whv)
    ensures var hvs' := hvs5[whv := ChargeIn(hvs5[whv], rTx)];
      && (forall h :: h in hvs ==> MinOf(hvs'[h], Out) == MinOf(hvs[h], Out))
      && (forall h :: h in hvs ==>
            (MinOf(hvs'[h], In) == MinOf(hvs[h], In) ||
             ((h == whv || Reaches(hvs, In, whv, h)) && MinOf(hvs'[h], In) == minIn)))
  {
    var hvs4 := EdgeIn(hvs, whv, rTx.hyperId);
    LoweredFacts(hvs4, hvs5, In, minIn);
    LoweredOther(hvs4, hvs5, In, Out, minIn);
    forall h | h in hvs && hvs5[h] != hvs4[h] && h != whv
      ensures Reaches(hvs, In, whv, h)
    {
      ReachMono(hvs4, hvs, In, whv, h);
    }
  }

  /** The reader's half of onRWNoEdge: the out-edge, the out-minimum spread
      backwards, then the rollback set and weight towards the writer.  The
      in-minima are untouched; of the soundness of the minima only the new
      edge's in-minimum is left to restore. */
  method LinkOutSide(hvs: map<nat, Hyper>, min2: map<int64, set<nat>>, rTx: Vertex, whv: nat)
    returns (hvs': map<nat, Hyper>, min2': map<int64, set<nat>>)
    requires Closed(hvs) && rTx.hyperId in hvs && whv in hvs && IdFits(rTx.hyperId) && IdFits(whv)
    ensures Closed(hvs') && hvs'.Keys == hvs.Keys && hvs'[rTx.hyperId].minIn == hvs[rTx.hyperId].minIn
    ensures SameUnminned(hvs', hvs[rTx.hyperId := AddOut(hvs[rTx.hyperId], rTx, whv)])
    ensures Filed(hvs, min2) ==> Filed(hvs', min2')
    ensures MinsSound(hvs) ==> HalfSound(hvs', rTx.hyperId, whv, Min32(hvs[rTx.hyperId].minIn, rTx.hyperId as int32))
    ensures forall h :: h in hvs ==> MinOf(hvs'[h], In) == MinOf(hvs[h], In)
    ensures forall h :: h in hvs ==>
      (MinOf(hvs'[h], Out) == MinOf(hvs[h], Out) ||
       ((h == rTx.hyperId || Reaches(hvs, Out, rTx.hyperId, h)) &&
        MinOf(hvs'[h], Out) == Min32(MinOf(hvs[whv], Out), whv as int32)))
  {
    var rhv := rTx.hyperId;
    hvs' := EdgeOut(hvs, rhv, whv);
    EdgeFacts(hvs, min2, rhv, whv);
    var minOut := Min32(hvs'[whv].minOut, whv as int32);
    hvs', min2' := LowerTo(hvs', min2, rhv, minOut, Out);
    ghost var hvs2 := hvs';
    hvs' := hvs'[rhv := ChargeOut(hvs'[rhv], rTx, whv)];
    OutSideFrame(hvs, min2, hvs2, min2', rTx, whv, minOut);
    OutSideUnminned(hvs, hvs2, rTx, whv, minOut);
    OutSideMins(hvs, hvs2, rTx, whv, minOut);
    if MinsSound(hvs) {
      OutSideSound(hvs, hvs2, rTx, whv, minOut);
    }
  }

  /** The writer's half of onRWNoEdge: the in-edge, the in-minimum spread
      forwards, then the in-side rollback set and cost.  Given what the
      reader's half leaves, the minima are sound again. */
  method LinkInSide(hvs: map<nat, Hyper>, min2: map<int64, set<nat>>, rTx: Vertex, whv: nat)
    returns (hvs': map<nat, Hyper>, min2': map<int64, set<nat>>)
    requires Closed(hvs) && rTx.hyperId in hvs && whv in hvs && IdFits(rTx.hyperId) && IdFits(whv)
    ensures Closed(hvs') && hvs'.Keys == hvs.Keys
    ensures SameUnminned(hvs', hvs[whv := AddIn(hvs[whv], rTx, rTx.hyperId)])
    ensures Filed(hvs, min2) ==> Filed(hvs', min2')
    ensures HalfSound(hvs, rTx.hyperId, whv, Min32(hvs[rTx.hyperId].minIn, rTx.hyperId as int32)) ==> MinsSound(hvs')
    ensures forall h :: h in hvs ==> MinOf(hvs'[h], Out) == MinOf(hvs[h], Out)
    ensures forall h :: h in hvs ==>
      (MinOf(hvs'[h], In) == MinOf(hvs[h], In) ||
       ((h == whv || Reaches(hvs, In, whv, h)) &&
        MinOf(hvs'[h], In) == Min32(MinOf(hvs[rTx.hyperId], In), rTx.hyperId as int32)))
  {
    var rhv := rTx.hyperId;
    hvs' := EdgeIn(hvs, whv, rhv);
    EdgeFacts(hvs, min2, rhv, whv);
    var minIn := Min32(hvs'[rhv].minIn, rhv as int32);
    hvs', min2' := LowerTo(hvs', min2, whv, minIn, In);
    ghost var hvs5 := hvs';
    hvs' := hvs'[whv := ChargeIn(hvs'[whv], rTx)];
    InSideFrame(hvs, min2, hvs5, min2', rTx, whv, minIn);
    InSideUnminned(hvs, hvs5, rTx, whv, minIn);
    InSideMins(hvs, hvs5, rTx, whv, minIn);
    if HalfSound(hvs, rhv, whv, minIn) {
      InSideSound(hvs, hvs5, rTx, whv, minIn);
    }
  }

  /** The two halves of onRWNoEdge change what onRWCNoEdge changes, and
      beyond that only minima. */
  lemma LinkUnminned(hvs: map<nat, Hyper>, mid: map<nat, Hyper>, hvs': map<nat, Hyper>, rTx: Vertex, wTx: Vertex)
    requires rTx.hyperId in hvs && wTx.hyperId in hvs && mid.Keys == hvs.Keys
    requires SameUnminned(mid, hvs[rTx.hyperId := AddOut(hvs[rTx.hyperId], rTx, wTx.hyperId)])
    requires SameUnminned(hvs', mid[wTx.hyperId := AddIn(mid[wTx.hyperId], rTx, rTx.hyperId)])
    ensures SameUnminned(hvs', LinkNoEdge(hvs, rTx, wTx))
  {
    var link1 := hvs[rTx.hyperId := AddOut(hvs[rTx.hyperId], rTx, wTx.hyperId)];
    UnminnedAddIn(mid, link1, wTx.hyperId, rTx);
    UnminnedTrans(hvs', mid[wTx.hyperId := AddIn(mid[wTx.hyperId], rTx, rTx.hyperId)], LinkNoEdge(hvs, rTx, wTx));
  }

  /** Maps equal but for the minima have the same edges, so growth
      between two of them is growth between their counterparts. */
  lemma UnminnedGrows(a: map<nat, Hyper>, b: map<nat, Hyper>, c: map<nat, Hyper>, d: map<nat, Hyper>)
    requires SameUnminned(a, b) && SameUnminned(c, d) && Grows(d, b)
    ensures Grows(c, a)
  {
    forall h | h in c
      ensures h in a && c[h].inHv <= a[h].inHv && c[h].outHv <= a[h].outHv
    {
      assert Unminned(a[h]) == Unminned(b[h]);
      assert Unminned(c[h]) == Unminned(d[h]);
    }
  }

  /** Replacing one hyper-vertex by one with more edges is growth. */
  lemma GrowsAt(a: map<nat, Hyper>, h: nat, x: Hyper)
    requires h in a && a[h].inHv <= x.inHv && a[h].outHv <= x.outHv
    ensures Grows(a, a[h := x])
  {
  }

  /** onRWNoEdge's two halves only add edges, and in the end the new
      edge is there both ways. */
  lemma LinkGrows(hvs: map<nat, Hyper>, mid: map<nat, Hyper>, hvs': map<nat, Hyper>, rTx: Vertex, wTx: Vertex)
    requires rTx.hyperId in hvs && wTx.hyperId in hvs
    requires SameUnminned(mid, hvs[rTx.hyperId := AddOut(hvs[rTx.hyperId], rTx, wTx.hyperId)])
    requires SameUnminned(hvs', LinkNoEdge(hvs, rTx, wTx))
    ensures Grows(hvs, mid) && Grows(mid, hvs') && Grows(hvs, hvs')
    ensures rTx.hyperId in hvs'[wTx.hyperId].inHv && wTx.hyperId in hvs'[rTx.hyperId].outHv
  {
    var rhv, whv := rTx.hyperId, wTx.hyperId;
    var link1 := hvs[rhv := AddOut(hvs[rhv], rTx, whv)];
    var link := LinkNoEdge(hvs, rTx, wTx);
    LinkNoEdgeSpec(hvs, rTx, wTx);
    GrowsAt(hvs, rhv, AddOut(hvs[rhv], rTx, whv));
    UnminnedGrows(mid, link1, hvs, hvs);
    GrowsAt(link1, whv, AddIn(link1[whv], rTx, rhv));
    UnminnedGrows(hvs', link, mid, link1);
    assert Grows(hvs, link);
    UnminnedGrows(hvs', link, hvs, hvs);
    assert Unminned(hvs'[whv]) == Unminned(link[whv]);
    assert Unminned(hvs'[rhv]) == Unminned(link[rhv]);
  }

  /** onRWNoEdge keeps the minima exact: the out-minima it lowers are
      reached through the new edge from the writer's hyper-vertex, the
      in-minima it lowers through it from the reader's. */
  lemma LinkExact(hvs: map<nat, Hyper>, mid: map<nat, Hyper>, hvs': map<nat, Hyper>, rTx: Vertex, wTx: Vertex)
    requires rTx.hyperId in hvs && wTx.hyperId in hvs && IdFits(rTx.hyperId) && IdFits(wTx.hyperId)
    requires mid.Keys == hvs.Keys && hvs'.Keys == hvs.Keys
    requires SameUnminned(mid, hvs[rTx.hyperId := AddOut(hvs[rTx.hyperId], rTx, wTx.hyperId)])
    requires SameUnminned(hvs', LinkNoEdge(hvs, rTx, wTx))
    requires forall h :: h in hvs ==> MinOf(mid[h], In) == MinOf(hvs[h], In)
    requires forall h :: h in hvs ==>
      (MinOf(mid[h], Out) == MinOf(hvs[h], Out) ||
       ((h == rTx.hyperId || Reaches(hvs, Out, rTx.hyperId, h)) &&
        MinOf(mid[h], Out) == Min32(MinOf(hvs[wTx.hyperId], Out), wTx.hyperId as int32)))
    requires forall h :: h in mid ==> MinOf(hvs'[h], Out) == MinOf(mid[h], Out)
    requires forall h :: h in mid ==>
      (MinOf(hvs'[h], In) == MinOf(mid[h], In) ||
       ((h == wTx.hyperId || Reaches(mid, In, wTx.hyperId, h)) &&
        MinOf(hvs'[h], In) == Min32(MinOf(mid[rTx.hyperId], In), rTx.hyperId as int32)))
    requires Attained(hvs, Out) && Attained(hvs, In)
    ensures Attained(hvs', Out) && Attained(hvs', In)
  {
    var rhv, whv := rTx.hyperId, wTx.hyperId;
    LinkGrows(hvs, mid, hvs', rTx, wTx);
    AttainedAfter(hvs, hvs', Out, whv, rhv);
    AttainedKeep(hvs, mid, In);
    AttainedAfter(mid, hvs', In, rhv, whv);
  }

  /** MinWRollback::onRWNoEdge for the dependency "rTx reads what wTx
      writes": onRWCNoEdge's bookkeeping, with the reader's out-minimum and
      the writer's in-minimum spread by recursiveUpdate when the new edge
      lowers them.  The minima stay sound and exact, and the buckets exact. */
  method OnRWNoEdge(hvs: map<nat, Hyper>, min2: map<int64, set<nat>>, rTx: Vertex, wTx: Vertex)
    returns (hvs': map<nat, Hyper>, min2': map<int64, set<nat>>)
    requires Closed(hvs) && rTx.hyperId in hvs && wTx.hyperId in hvs && IdFits(rTx.hyperId) && IdFits(wTx.hyperId)
    ensures hvs'.Keys == hvs.Keys && Closed(hvs')
    ensures SameUnminned(hvs', LinkNoEdge(hvs, rTx, wTx))
    ensures Filed(hvs, min2) ==> Filed(hvs', min2')
    ensures MinsSound(hvs) ==> MinsSound(hvs')
    ensures MinsExact(hvs) ==> MinsExact(hvs')
  {
    ghost var filed := Filed(hvs, min2);
    ghost var sound := MinsSound(hvs);
    var mid, midMin2 := LinkOutSide(hvs, min2, rTx, wTx.hyperId);
    assert filed ==> Filed(mid, midMin2);
    hvs', min2' := LinkInSide(mid, midMin2, rTx, wTx.hyperId);
    assert filed ==> Filed(hvs', min2');
    LinkUnminned(hvs, mid, hvs', rTx, wTx);
    if MinsExact(hvs) {
      LinkExact(hvs, mid, hvs', rTx, wTx);
    }
  }
}
