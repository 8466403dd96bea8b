/** Moving sub-transactions on the time-space graph
    (protocol/loom/DeterReExecute.cpp): reschedule, isIdle,
    getCandidateTxSet's scan, canReorder and the execution-time
    computations, over the graph's values. */
module DeterMoves {
  import opened DeterGraph

  // ---------------------------------------------------------------------
  // reschedule, as a function of the graph

  /** The dependencies of `tx` scheduled after its new start `s`. */
  function Late(txs: map<string, TxInfo>, sched: map<string, int>, deps: set<string>, s: int): (r: set<string>)
    requires deps <= sched.Keys
    ensures r <= deps
    ensures forall c :: c in deps ==> (c in r <==> sched[c] > s)
  {
    set c | c in deps && sched[c] > s
  }

  /** dependencies_in after reschedule: `tx` drops the late ones, and each
      late one now waits for `tx`. */
  ghost function FlipIn(din: map<string, set<string>>, tx: string, late: set<string>): map<string, set<string>> {
    map x | x in din :: if x == tx then din[x] - late else if x in late then din[x] + {tx} else din[x]
  }

  /** dependencies_out after reschedule: the late ones now wait for `tx`,
      and no longer count `tx` as waiting for them. */
  ghost function FlipOut(dout: map<string, set<string>>, tx: string, late: set<string>): map<string, set<string>> {
    map x | x in dout :: if x == tx then dout[x] + late else if x in late then dout[x] - {tx} else dout[x]
  }

  /** Each sub-transaction waits for another exactly when the other lists
      it as waiting. */
  ghost predicate Mirrored(din: map<string, set<string>>, dout: map<string, set<string>>) {
    forall a, b :: a in dout && b in din ==> (a in din[b] <==> b in dout[a])
  }

  /** reschedule keeps the two dependency relations mirror images of each
      other, moves every late dependency of `tx` to the other side on both
      ends, and leaves `tx` waiting only for sub-transactions that start no
      later than `s`. */
  lemma RescheduleFlips(txs: map<string, TxInfo>, sched: map<string, int>, din: map<string, set<string>>,
                        dout: map<string, set<string>>, tx: string, s: int)
    requires tx in din && tx in dout && din[tx] <= sched.Keys
    ensures var late := Late(txs, sched[tx := s], din[tx], s);
      Mirrored(din, dout) ==> Mirrored(FlipIn(din, tx, late), FlipOut(dout, tx, late))
    ensures var late := Late(txs, sched[tx := s], din[tx], s);
      forall c :: c in FlipIn(din, tx, late)[tx] ==> sched[tx := s][c] <= s
    ensures var late := Late(txs, sched[tx := s], din[tx], s);
      forall c :: c in late ==>
        && c in din && c in dout
        && c in FlipOut(dout, tx, late)[tx] && c !in FlipIn(din, tx, late)[tx]
        ==> tx in FlipIn(din, tx, late)[c] && tx !in FlipOut(dout, tx, late)[c]
  {
    var late := Late(txs, sched[tx := s], din[tx], s);
    assert tx !in late;
  }

  // ---------------------------------------------------------------------
  // The time computations

  /** isIdle: running `tx` from `start` overlaps none of its dependencies. */
  predicate IsIdle(txs: map<string, TxInfo>, sched: map<string, int>, deps: set<string>, tx: string, start: int)
    requires tx in txs && deps <= txs.Keys && deps <= sched.Keys
  {
    var end := start + txs[tx].cost;
    forall c :: c in deps ==> sched[c] >= end || sched[c] + txs[c].cost <= start
  }

  /** Time unit `t` lies in the interval of length `len` from `from`. */
  predicate During(t: int, from: int, len: int) {
    from <= t < from + len
  }

  /** With positive costs, isIdle holds exactly when the interval
      [start, start + cost) shares no time unit with the interval of any
      dependency. */
  lemma IdleIffDisjoint(txs: map<string, TxInfo>, sched: map<string, int>, deps: set<string>, tx: string, start: int)
    requires tx in txs && deps <= txs.Keys && deps <= sched.Keys
    requires txs[tx].cost > 0 && forall c :: c in deps ==> txs[c].cost > 0
    ensures IsIdle(txs, sched, deps, tx, start) <==>
      forall c, t :: c in deps && During(t, start, txs[tx].cost) ==> !During(t, sched[c], txs[c].cost)
  {
    if !IsIdle(txs, sched, deps, tx, start) {
      var c :| c in deps && !(sched[c] >= start + txs[tx].cost || sched[c] + txs[c].cost <= start);
      var t := Max(start, sched[c]);
      assert During(t, start, txs[tx].cost) && During(t, sched[c], txs[c].cost);
    }
  }

  /** calculateExecutionTime's scan: the latest end among `deps`, or 0. */
  method LatestEnd(txs: map<string, TxInfo>, sched: map<string, int>, deps: set<string>) returns (t: int)
    requires deps <= txs.Keys && deps <= sched.Keys
    ensures 0 <= t
    ensures forall c :: c in deps ==> sched[c] + txs[c].cost <= t
    ensures t == 0 || exists c :: c in deps && t == sched[c] + txs[c].cost
    ensures t == LatestOf(txs, sched, deps)
  {
    t := 0;
    var rest := deps;
    while rest != {}
      invariant rest <= deps
      invariant 0 <= t
      invariant forall c :: c in deps - rest ==> sched[c] + txs[c].cost <= t
      invariant t == 0 || exists c :: c in deps && t == sched[c] + txs[c].cost
      decreases |rest|
    {
      var c :| c in rest;
      t := Max(t, sched[c] + txs[c].cost);
      rest := rest - {c};
    }
    LatestOfBounds(txs, sched, deps);
    LatestUnique(txs, sched, deps, t, LatestOf(txs, sched, deps));
  }

  /** The latest end among `deps` on `sched`, or 0 when there is none. */
  ghost function LatestOf(txs: map<string, TxInfo>, sched: map<string, int>, deps: set<string>): (t: int)
    requires deps <= txs.Keys && deps <= sched.Keys
    ensures 0 <= t
    decreases deps
  {
    if deps == {} then 0
    else
      var c :| c in deps;
      Max(LatestOf(txs, sched, deps - {c}), sched[c] + txs[c].cost)
  }

  /** `LatestOf` bounds every end among `deps` and is one of them, or 0. */
  lemma {:induction false} LatestOfBounds(txs: map<string, TxInfo>, sched: map<string, int>, deps: set<string>)
    requires deps <= txs.Keys && deps <= sched.Keys
    ensures forall c :: c in deps ==> sched[c] + txs[c].cost <= LatestOf(txs, sched, deps)
    ensures LatestOf(txs, sched, deps) == 0 || exists c :: c in deps && LatestOf(txs, sched, deps) == sched[c] + txs[c].cost
    decreases deps
  {
    if deps != {} {
      var c :| c in deps && LatestOf(txs, sched, deps) == Max(LatestOf(txs, sched, deps - {c}), sched[c] + txs[c].cost);
      var rest := LatestOf(txs, sched, deps - {c});
      assert LatestOf(txs, sched, deps) == Max(rest, sched[c] + txs[c].cost);
      LatestOfBounds(txs, sched, deps - {c});
      forall d | d in deps && d != c
        ensures sched[d] + txs[d].cost <= rest
      {
        assert d in deps - {c};
      }
    }
  }

  /** The three bounds on the scan's result fix it. */
  lemma LatestUnique(txs: map<string, TxInfo>, sched: map<string, int>, deps: set<string>, a: int, b: int)
    requires deps <= txs.Keys && deps <= sched.Keys
    requires 0 <= a && (forall c :: c in deps ==> sched[c] + txs[c].cost <= a)
    requires a == 0 || exists c :: c in deps && a == sched[c] + txs[c].cost
    requires 0 <= b && (forall c :: c in deps ==> sched[c] + txs[c].cost <= b)
    requires b == 0 || exists c :: c in deps && b == sched[c] + txs[c].cost
    ensures a == b
  {
  }

  /** getCandidateTxSet's scan: the unconflicted sub-transactions that start
      strictly later than `at`. */
  method LaterOnes(sched: map<string, int>, pool: set<string>, at: int) returns (ts: set<string>)
    requires pool <= sched.Keys
    ensures forall c :: c in ts <==> c in pool && sched[c] > at
  {
    ts := {};
    var rest := pool;
    while rest != {}
      invariant rest <= pool
      invariant forall c :: c in ts <==> c in pool - rest && sched[c] > at
      decreases |rest|
    {
      var c :| c in rest;
      if sched[c] > at {
        ts := ts + {c};
      }
      rest := rest - {c};
    }
  }

  /** m_orderIndex[h], where the index operator reads an absent hyper id as
      order 0. */
  function OrderOf(orderIndex: map<int, int>, h: int): int {
    if h in orderIndex then orderIndex[h] else 0
  }

  /** canReorder. */
  function CanReorder(orderIndex: map<int, int>, t1: TxInfo, t2: TxInfo): bool {
    OrderOf(orderIndex, t1.hyperId) != OrderOf(orderIndex, t2.hyperId)
  }

  /** Two sub-transactions can be reordered exactly when their hyper ids
      carry different order indices, a missing id counting as index 0; so
      sub-transactions of the same hyper-transaction never can, and an id
      missing from the index cannot be reordered with one of index 0.  The
      entry that the index operator inserts for a missing id changes no
      later answer. */
  lemma CanReorderIff(orderIndex: map<int, int>, t1: TxInfo, t2: TxInfo)
    ensures t1.hyperId in orderIndex && t2.hyperId in orderIndex ==>
      (CanReorder(orderIndex, t1, t2) <==> orderIndex[t1.hyperId] != orderIndex[t2.hyperId])
    ensures t1.hyperId == t2.hyperId ==> !CanReorder(orderIndex, t1, t2)
    ensures t1.hyperId !in orderIndex && OrderOf(orderIndex, t2.hyperId) == 0 ==> !CanReorder(orderIndex, t1, t2)
    ensures forall h :: CanReorder(orderIndex[h := OrderOf(orderIndex, h)], t1, t2) == CanReorder(orderIndex, t1, t2)
  {
  }

  /** reschedule's loop over dependencies_in of `tx`, once `tx` starts at
      `s`. */
  method FlipLate(txs: map<string, TxInfo>, sched: map<string, int>, din: map<string, set<string>>,
                  dout: map<string, set<string>>, tx: string, s: int)
    returns (din': map<string, set<string>>, dout': map<string, set<string>>)
    requires tx in sched && sched[tx] == s && tx in din && tx in dout
    requires din[tx] <= sched.Keys && din[tx] <= din.Keys && din[tx] <= dout.Keys
    ensures din' == FlipIn(din, tx, Late(txs, sched, din[tx], s))
    ensures dout' == FlipOut(dout, tx, Late(txs, sched, din[tx], s))
  {
    din', dout' := din, dout;
    var toRemove: set<string> := {};
    var rest := din[tx];
    FlipNone(din, dout, tx);
    Unseen(din[tx]);
    while rest != {}
      invariant rest <= din[tx] && toRemove == Late(txs, sched, din[tx] - rest, s)
      invariant din' == FlipIn(din, tx, toRemove)[tx := din[tx]]
      invariant dout' == FlipOut(dout, tx, toRemove)
      decreases |rest|
    {
      var c :| c in rest;
      ghost var seen := din[tx] - rest;
      toRemove, din', dout' := FlipOne(txs, sched, din, dout, tx, s, seen, c, toRemove, din', dout');
      Seen(din[tx], rest, c);
      rest := rest - {c};
    }
    Unseen(din[tx]);
    FlipInLast(din, tx, toRemove);
    din' := din'[tx := din'[tx] - toRemove];
  }

  /** One pass of reschedule's loop, over the dependency `c` after those in
      `seen`: a late `c` is recorded for removal, `tx` counts it as waiting,
      and `c` waits for `tx` instead of being waited for. */
  method FlipOne(txs: map<string, TxInfo>, sched: map<string, int>, din: map<string, set<string>>,
                 dout: map<string, set<string>>, tx: string, s: int, ghost seen: set<string>, c: string,
                 toRemove: set<string>, din': map<string, set<string>>, dout': map<string, set<string>>)
    returns (toRemove'': set<string>, din'': map<string, set<string>>, dout'': map<string, set<string>>)
    requires tx in sched && sched[tx] == s && tx in din && tx in dout
    requires c in sched && c in din && c in dout && seen <= sched.Keys
    requires toRemove == Late(txs, sched, seen, s)
    requires din' == FlipIn(din, tx, toRemove)[tx := din[tx]]
    requires dout' == FlipOut(dout, tx, toRemove)
    ensures toRemove'' == Late(txs, sched, seen + {c}, s)
    ensures din'' == FlipIn(din, tx, toRemove'')[tx := din[tx]]
    ensures dout'' == FlipOut(dout, tx, toRemove'')
  {
    LateStep(txs, sched, seen, c, s);
    toRemove'', din'', dout'' := toRemove, din', dout';
    if sched[c] > s {
      FlipInStep(din, tx, toRemove, c);
      FlipOutStep(dout, tx, toRemove, c);
      toRemove'' := toRemove'' + {c};
      dout'' := dout''[tx := dout''[tx] + {c}];
      dout'' := dout''[c := dout''[c] - {tx}];
      din'' := din''[c := din''[c] + {tx}];
    }
  }

  /** Nothing of `deps` is visited before the loop, all of it after. */
  lemma Unseen(deps: set<string>)
    ensures deps - deps == {} && deps - {} == deps
  {
  }

  /** Visiting `c` moves it from the rest to what was visited. */
  lemma Seen(deps: set<string>, rest: set<string>, c: string)
    requires c in rest && rest <= deps
    ensures (deps - rest) + {c} == deps - (rest - {c})
  {
  }

  /** Before the loop nothing has moved. */
  lemma FlipNone(din: map<string, set<string>>, dout: map<string, set<string>>, tx: string)
    requires tx in din
    ensures din == FlipIn(din, tx, {})[tx := din[tx]]
    ensures dout == FlipOut(dout, tx, {})
  {
    assert forall x :: x in dout ==> FlipOut(dout, tx, {})[x] == dout[x] by {
      forall x | x in dout
        ensures FlipOut(dout, tx, {})[x] == dout[x]
      {
        if x == tx {
          assert dout[x] + {} == dout[x];
        }
      }
    }
  }

  /** Visiting one more dependency adds it to the late ones exactly when it
      starts after `s`. */
  lemma LateStep(txs: map<string, TxInfo>, sched: map<string, int>, seen: set<string>, c: string, s: int)
    requires seen <= sched.Keys && c in sched
    ensures Late(txs, sched, seen + {c}, s) == Late(txs, sched, seen, s) + (if sched[c] > s then {c} else {})
  {
  }

  /** Moving one more late dependency `c`: it now waits for `tx` (the entry
      of `tx` itself is set at the end). */
  lemma FlipInStep(din: map<string, set<string>>, tx: string, late: set<string>, c: string)
    requires tx in din && c in din && c != tx
    ensures FlipIn(din, tx, late + {c})[tx := din[tx]] ==
      FlipIn(din, tx, late)[tx := din[tx]][c := FlipIn(din, tx, late)[tx := din[tx]][c] + {tx}]
  {
    var before := FlipIn(din, tx, late)[tx := din[tx]];
    assert before[c] + {tx} == din[c] + {tx};
  }

  /** Moving one more late dependency `c`: `tx` now counts it as waiting,
      and `c` no longer counts `tx`. */
  lemma FlipOutStep(dout: map<string, set<string>>, tx: string, late: set<string>, c: string)
    requires tx in dout && c in dout && c != tx
    ensures FlipOut(dout, tx, late + {c}) ==
      FlipOut(dout, tx, late)[tx := FlipOut(dout, tx, late)[tx] + {c}][c := FlipOut(dout, tx, late)[c] - {tx}]
  {
    var before := FlipOut(dout, tx, late);
    assert before[tx] + {c} == dout[tx] + (late + {c});
    assert before[c] - {tx} == dout[c] - {tx};
  }

  /** The final removal from dependencies_in of `tx`. */
  lemma FlipInLast(din: map<string, set<string>>, tx: string, late: set<string>)
    requires tx in din
    ensures FlipIn(din, tx, late)[tx := din[tx]][tx := din[tx] - late] == FlipIn(din, tx, late)
  {
  }

  /** reschedule's early return: with no dependencies, flipping the late
      ones changes nothing. */
  lemma FlipNothing(txs: map<string, TxInfo>, sched: map<string, int>, din: map<string, set<string>>,
                    dout: map<string, set<string>>, tx: string, s: int)
    requires tx in din && din[tx] == {}
    ensures din == FlipIn(din, tx, Late(txs, sched, din[tx], s))
    ensures dout == FlipOut(dout, tx, Late(txs, sched, din[tx], s))
  {
    var late := Late(txs, sched, din[tx], s);
    assert late == {};
    forall x | x in din
      ensures FlipIn(din, tx, late)[x] == din[x]
    {
      if x == tx {
        assert din[x] - late == din[x];
      }
    }
    forall x | x in dout
      ensures FlipOut(dout, tx, late)[x] == dout[x]
    {
      if x == tx {
        assert dout[x] + late == dout[x];
      }
    }
  }

  /** What calculateTotalExecutionTime's loop keeps after the first `j`
      sub-transactions: no start time outside the list changed, each of
      theirs is at least 0
      and after the earlier ones it waits for, and `endTime` is the latest
      end among them (reached by the `last`-th), or 0. */
  ghost predicate Timed(txs: map<string, TxInfo>, rb: seq<string>, din: map<string, set<string>>,
                        sched: map<string, int>, sched': map<string, int>, j: nat, endTime: int, last: nat)
    requires Listed(txs, rb) && sched.Keys == txs.Keys && j <= |rb|
  {
    && sched'.Keys == sched.Keys && 0 <= endTime
    && (forall x :: x in sched && x !in rb ==> sched'[x] == sched[x])
    && (forall i :: 0 <= i < j ==> 0 <= sched'[rb[i]] && sched'[rb[i]] + txs[rb[i]].cost <= endTime)
    && (endTime == 0 || (last < j && endTime == sched'[rb[last]] + txs[rb[last]].cost))
    && (forall k, i :: 0 <= k < i < j && rb[i] in din && rb[k] in din[rb[i]] ==>
          sched'[rb[k]] + txs[rb[k]].cost <= sched'[rb[i]])
  }

  /** One step of calculateTotalExecutionTime's loop keeps `Timed`. */
  lemma TimedStep(txs: map<string, TxInfo>, rb: seq<string>, din: map<string, set<string>>,
                  sched: map<string, int>, prev: map<string, int>, j: nat, endTime: int, last: nat, t: int,
                  next: map<string, int>, j': nat, endTime': int, last': nat)
    requires Listed(txs, rb) && Distinct(rb) && sched.Keys == txs.Keys && j < |rb| && rb[j] in din
    requires Timed(txs, rb, din, sched, prev, j, endTime, last)
    requires 0 <= t && forall c :: c in din[rb[j]] && c in prev ==> prev[c] + txs[c].cost <= t
    requires next == prev[rb[j] := t] && j' == j + 1 && endTime' == Max(endTime, t + txs[rb[j]].cost)
    requires last' == if endTime < t + txs[rb[j]].cost then j else last
    ensures Timed(txs, rb, din, sched, next, j', endTime', last')
  {
    StepKeepsEarlier(rb, prev, j, t);
    StepBounds(txs, rb, prev, j, endTime, t);
    StepOrder(txs, rb, din, prev, j, t);
    if !(endTime < t + txs[rb[j]].cost) && endTime != 0 {
      assert rb[last] != rb[j];
    }
  }

  /** Setting the `j`-th start time leaves the earlier ones alone. */
  lemma StepKeepsEarlier(rb: seq<string>, prev: map<string, int>, j: nat, t: int)
    requires Distinct(rb) && Covers(rb, prev) && j < |rb|
    ensures forall i :: 0 <= i < j ==> prev[rb[j] := t][rb[i]] == prev[rb[i]]
  {
    forall i | 0 <= i < j
      ensures prev[rb[j] := t][rb[i]] == prev[rb[i]]
    {
      assert rb[i] != rb[j];
    }
  }

  lemma StepBounds(txs: map<string, TxInfo>, rb: seq<string>, prev: map<string, int>, j: nat, endTime: int, t: int)
    requires Listed(txs, rb) && j < |rb| && 0 <= t && rb[j] in prev
    requires forall i :: 0 <= i < j ==> rb[i] in prev && prev[rb[j] := t][rb[i]] == prev[rb[i]]
    requires forall i :: 0 <= i < j ==> 0 <= prev[rb[i]] && prev[rb[i]] + txs[rb[i]].cost <= endTime
    ensures forall i :: 0 <= i <= j ==>
      0 <= prev[rb[j] := t][rb[i]] && prev[rb[j] := t][rb[i]] + txs[rb[i]].cost <= Max(endTime, t + txs[rb[j]].cost)
  {
  }

  lemma StepOrder(txs: map<string, TxInfo>, rb: seq<string>, din: map<string, set<string>>, prev: map<string, int>, j: nat, t: int)
    requires Listed(txs, rb) && j < |rb| && rb[j] in din && rb[j] in prev && prev.Keys <= txs.Keys
    requires forall i :: 0 <= i < j ==> rb[i] in prev && prev[rb[j] := t][rb[i]] == prev[rb[i]]
    requires forall c :: c in din[rb[j]] && c in prev ==> prev[c] + txs[c].cost <= t
    requires forall k, i :: 0 <= k < i < j && rb[i] in din && rb[k] in din[rb[i]] ==>
      prev[rb[k]] + txs[rb[k]].cost <= prev[rb[i]]
    ensures forall k, i :: 0 <= k < i <= j && rb[i] in din && rb[k] in din[rb[i]] ==>
      prev[rb[j] := t][rb[k]] + txs[rb[k]].cost <= prev[rb[j] := t][rb[i]]
  {
  }

  /** What the first `j` steps of calculateTotalExecutionTime leave: step
      `i` sets the `i`-th start time to the latest end of its dependencies
      on the schedule the earlier steps left. */
  ghost function Recomputed(txs: map<string, TxInfo>, rb: seq<string>, sched: map<string, int>,
                            din: map<string, set<string>>, j: nat): (r: map<string, int>)
    requires Listed(txs, rb) && sched.Keys == txs.Keys && j <= |rb|
    requires forall i :: 0 <= i < |rb| ==> rb[i] in din && din[rb[i]] <= txs.Keys
    ensures r.Keys == sched.Keys
  {
    if j == 0 then sched
    else
      var prev := Recomputed(txs, rb, sched, din, j - 1);
      prev[rb[j - 1] := LatestOf(txs, prev, din[rb[j - 1]])]
  }

  /** The latest end after the first `j` steps, or 0. */
  ghost function Finish(txs: map<string, TxInfo>, rb: seq<string>, sched: map<string, int>,
                        din: map<string, set<string>>, j: nat): int
    requires Listed(txs, rb) && sched.Keys == txs.Keys && j <= |rb|
    requires forall i :: 0 <= i < |rb| ==> rb[i] in din && din[rb[i]] <= txs.Keys
  {
    if j == 0 then 0
    else
      var now := Recomputed(txs, rb, sched, din, j);
      Max(Finish(txs, rb, sched, din, j - 1), now[rb[j - 1]] + txs[rb[j - 1]].cost)
  }

  /** The `j`-th step of the recomputation keeps `Timed`. */
  lemma RecomputedStep(txs: map<string, TxInfo>, rb: seq<string>, sched: map<string, int>,
                       din: map<string, set<string>>, j: nat, last0: nat) returns (last: nat)
    requires Listed(txs, rb) && Distinct(rb) && sched.Keys == txs.Keys && 0 < j <= |rb|
    requires forall i :: 0 <= i < |rb| ==> rb[i] in din && din[rb[i]] <= txs.Keys
    requires Timed(txs, rb, din, sched, Recomputed(txs, rb, sched, din, j - 1), j - 1, Finish(txs, rb, sched, din, j - 1), last0)
    ensures Timed(txs, rb, din, sched, Recomputed(txs, rb, sched, din, j), j, Finish(txs, rb, sched, din, j), last)
  {
    var prev := Recomputed(txs, rb, sched, din, j - 1);
    var endTime := Finish(txs, rb, sched, din, j - 1);
    var t := LatestOf(txs, prev, din[rb[j - 1]]);
    LatestOfBounds(txs, prev, din[rb[j - 1]]);
    last := if endTime < t + txs[rb[j - 1]].cost then j - 1 else last0;
    TimedStep(txs, rb, din, sched, prev, j - 1, endTime, last0, t,
              Recomputed(txs, rb, sched, din, j), j, Finish(txs, rb, sched, din, j), last);
  }

  /** The first `j` steps leave a schedule that is `Timed`: the
      recomputed starts wait for their dependencies and `Finish` is the
      latest end among them. */
  lemma {:induction false} RecomputedTimed(txs: map<string, TxInfo>, rb: seq<string>, sched: map<string, int>,
                                           din: map<string, set<string>>, j: nat) returns (last: nat)
    requires Listed(txs, rb) && Distinct(rb) && sched.Keys == txs.Keys && j <= |rb|
    requires forall i :: 0 <= i < |rb| ==> rb[i] in din && din[rb[i]] <= txs.Keys
    ensures Timed(txs, rb, din, sched, Recomputed(txs, rb, sched, din, j), j, Finish(txs, rb, sched, din, j), last)
  {
    if j == 0 {
      last := 0;
    } else {
      var last0 := RecomputedTimed(txs, rb, sched, din, j - 1);
      last := RecomputedStep(txs, rb, sched, din, j, last0);
    }
  }

  /** calculateTotalExecutionTime over the graph's values: recomputes each
      start time in list order and returns the latest end. */
  method TotalTime(txs: map<string, TxInfo>, rb: seq<string>, sched: map<string, int>, din: map<string, set<string>>)
    returns (sched': map<string, int>, r: int)
    requires Listed(txs, rb) && Distinct(rb) && sched.Keys == txs.Keys
    requires forall i :: 0 <= i < |rb| ==> rb[i] in din && din[rb[i]] <= txs.Keys
    ensures sched' == Recomputed(txs, rb, sched, din, |rb|) && r == Finish(txs, rb, sched, din, |rb|)
    ensures sched'.Keys == sched.Keys && 0 <= r
    ensures forall j :: 0 <= j < |rb| ==> 0 <= sched'[rb[j]] && sched'[rb[j]] + txs[rb[j]].cost <= r
    ensures forall j :: 0 <= j < |rb| ==> txs[rb[j]].cost <= r
    ensures r == 0 || exists j :: 0 <= j < |rb| && r == sched'[rb[j]] + txs[rb[j]].cost
    ensures forall k, j :: 0 <= k < j < |rb| && rb[k] in din[rb[j]] ==>
      sched'[rb[k]] + txs[rb[k]].cost <= sched'[rb[j]]
    ensures forall x :: x in sched && x !in rb ==> sched'[x] == sched[x]
  {
    sched' := sched;
    var endTime := 0;
    var j := 0;
    while j < |rb|
      invariant 0 <= j <= |rb|
      invariant sched' == Recomputed(txs, rb, sched, din, j) && endTime == Finish(txs, rb, sched, din, j)
    {
      var txn := rb[j];
      var t := LatestEnd(txs, sched', din[txn]);
      sched' := sched'[txn := t];
      var txnEndTime := t + txs[txn].cost;
      endTime := Max(endTime, txnEndTime);
      j := j + 1;
    }
    r := endTime;
    ghost var last := RecomputedTimed(txs, rb, sched, din, |rb|);
  }
}
