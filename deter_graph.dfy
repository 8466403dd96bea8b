/** The time-space graph of deterministic re-execution
    (protocol/loom/DeterReExecute.cpp, buildGraphOrigin): the rolled-back
    sub-transactions of a block, in queue order, each given a start time and
    the sets of sub-transactions it waits for (dependencies_in) and that wait
    for it (dependencies_out).

    Sub-transactions are named by their ids; what the graph reads of each
    (hyper id, cost, read and write sets) is a `TxInfo`, and what it writes
    (start times, dependencies, the unconflicted sets) are maps from ids.
    Costs and start times are integers. */
module DeterGraph {
  import SetOps

  /** What the time-space graph reads of a sub-transaction. */
  datatype TxInfo = TxInfo(hyperId: int, cost: int, readSet: set<string>, writeSet: set<string>)

  /** The conflict test of buildGraphOrigin: `ti` writes what `tj` reads or
      writes, or reads what `tj` writes. */
  predicate Conflict(ti: TxInfo, tj: TxInfo) {
    || ti.writeSet * tj.readSet != {}
    || ti.writeSet * tj.writeSet != {}
    || ti.readSet * tj.writeSet != {}
  }

  /** m_unConflictTxMap[id], read as empty when absent. */
  function Get(m: map<string, set<string>>, id: string): set<string> {
    if id in m then m[id] else {}
  }

  function Max(a: int, b: int): int {
    if a < b then b else a
  }

  predicate Distinct(rb: seq<string>) {
    forall i, k :: 0 <= i < k < |rb| ==> rb[i] != rb[k]
  }

  /** Every sub-transaction of the list is known. */
  ghost predicate Listed(txs: map<string, TxInfo>, rb: seq<string>) {
    forall i :: 0 <= i < |rb| ==> rb[i] in txs
  }

  /** Every sub-transaction of the list has an entry in `m`. */
  ghost predicate Covers<V>(rb: seq<string>, m: map<string, V>) {
    forall i :: 0 <= i < |rb| ==> rb[i] in m
  }

  /** The `i`-th and `j`-th sub-transactions of the list conflict. */
  predicate Conflicts(txs: map<string, TxInfo>, rb: seq<string>, i: nat, j: nat)
    requires i < |rb| && j < |rb| && rb[i] in txs && rb[j] in txs
  {
    Conflict(txs[rb[i]], txs[rb[j]])
  }

  // ---------------------------------------------------------------------
  // buildGraphOrigin, as functions of the list: the inner scan for the
  // `j`-th sub-transaction over the first `n` entries, and the outer loop
  // over the first `k` sub-transactions, one function per field it writes

  /** The start time the scan gives the `j`-th sub-transaction: 0, raised to
      the end of every earlier one it conflicts with. */
  ghost function MaxEnd(txs: map<string, TxInfo>, rb: seq<string>, sched: map<string, int>, j: nat, n: nat): int
    requires Listed(txs, rb) && Covers(rb, sched) && j < |rb| && n <= |rb|
  {
    if n == 0 then 0
    else
      var m := MaxEnd(txs, rb, sched, j, n - 1);
      if n - 1 < j && Conflicts(txs, rb, n - 1, j) then Max(m, sched[rb[n - 1]] + txs[rb[n - 1]].cost) else m
  }

  /** The earlier sub-transactions the `j`-th one conflicts with. */
  ghost function Preds(txs: map<string, TxInfo>, rb: seq<string>, j: nat, n: nat): set<string>
    requires Listed(txs, rb) && j < |rb| && n <= |rb|
  {
    set a | 0 <= a < n && a < j && Conflicts(txs, rb, a, j) :: rb[a]
  }

  /** The sub-transactions the `j`-th one does not conflict with (itself
      included when it neither writes nor reads what it writes). */
  ghost function NonConf(txs: map<string, TxInfo>, rb: seq<string>, j: nat, n: nat): set<string>
    requires Listed(txs, rb) && j < |rb| && n <= |rb|
  {
    set a | 0 <= a < n && !Conflicts(txs, rb, a, j) :: rb[a]
  }

  /** dependencies_out after the scan for the `j`-th sub-transaction: each
      earlier one it conflicts with gains it. */
  ghost function AddSucc(txs: map<string, TxInfo>, rb: seq<string>, d: map<string, set<string>>, j: nat, n: nat)
    : (r: map<string, set<string>>)
    requires Listed(txs, rb) && Covers(rb, d) && j < |rb| && n <= |rb|
    ensures r.Keys == d.Keys
  {
    map x | x in d :: if x in Preds(txs, rb, j, n) then d[x] + {rb[j]} else d[x]
  }

  /** Start times after the first `k` outer steps. */
  ghost function Schedule(txs: map<string, TxInfo>, rb: seq<string>, sched: map<string, int>, k: nat)
    : (r: map<string, int>)
    requires Listed(txs, rb) && Covers(rb, sched) && k <= |rb|
    ensures r.Keys == sched.Keys
  {
    if k == 0 then sched
    else
      var s := Schedule(txs, rb, sched, k - 1);
      s[rb[k - 1] := MaxEnd(txs, rb, s, k - 1, |rb|)]
  }

  /** dependencies_in after the first `k` outer steps. */
  ghost function DepsIn(txs: map<string, TxInfo>, rb: seq<string>, d: map<string, set<string>>, k: nat)
    : (r: map<string, set<string>>)
    requires Listed(txs, rb) && Covers(rb, d) && k <= |rb|
    ensures r.Keys == d.Keys
  {
    if k == 0 then d
    else
      var d' := DepsIn(txs, rb, d, k - 1);
      d'[rb[k - 1] := d'[rb[k - 1]] + Preds(txs, rb, k - 1, |rb|)]
  }

  /** dependencies_out after the first `k` outer steps. */
  ghost function DepsOut(txs: map<string, TxInfo>, rb: seq<string>, d: map<string, set<string>>, k: nat)
    : (r: map<string, set<string>>)
    requires Listed(txs, rb) && Covers(rb, d) && k <= |rb|
    ensures r.Keys == d.Keys
  {
    if k == 0 then d else AddSucc(txs, rb, DepsOut(txs, rb, d, k - 1), k - 1, |rb|)
  }

  /** m_unConflictTxMap after the first `k` outer steps. */
  ghost function UnConf(txs: map<string, TxInfo>, rb: seq<string>, u: map<string, set<string>>, k: nat)
    : (r: map<string, set<string>>)
    requires Listed(txs, rb) && k <= |rb|
  {
    if k == 0 then u
    else
      var u' := UnConf(txs, rb, u, k - 1);
      u'[rb[k - 1] := Get(u', rb[k - 1]) + NonConf(txs, rb, k - 1, |rb|)]
  }

  /** The sub-transactions the one named `x` comes before and conflicts
      with, among the first `k` entries: the dependencies_out it gains. */
  ghost function Succs(txs: map<string, TxInfo>, rb: seq<string>, x: string, k: nat): set<string>
    requires Listed(txs, rb) && k <= |rb|
  {
    set b | 0 <= b < k && x in Preds(txs, rb, b, |rb|) :: rb[b]
  }

  // ---------------------------------------------------------------------
  // What the scan computes

  lemma {:induction false} MaxEndBounds(txs: map<string, TxInfo>, rb: seq<string>, sched: map<string, int>, j: nat, n: nat)
    requires Listed(txs, rb) && Covers(rb, sched) && j < |rb| && n <= |rb|
    ensures 0 <= MaxEnd(txs, rb, sched, j, n)
    ensures forall a :: 0 <= a < n && a < j && Conflicts(txs, rb, a, j) ==>
      sched[rb[a]] + txs[rb[a]].cost <= MaxEnd(txs, rb, sched, j, n)
    ensures || MaxEnd(txs, rb, sched, j, n) == 0
            || exists a :: 0 <= a < n && a < j && Conflicts(txs, rb, a, j) &&
                 MaxEnd(txs, rb, sched, j, n) == sched[rb[a]] + txs[rb[a]].cost
  {
    if n > 0 {
      MaxEndBounds(txs, rb, sched, j, n - 1);
    }
  }

  /** The start time depends only on the start times of earlier entries. */
  lemma {:induction false} MaxEndEarlier(txs: map<string, TxInfo>, rb: seq<string>, s1: map<string, int>, s2: map<string, int>, j: nat, n: nat)
    requires Listed(txs, rb) && Covers(rb, s1) && Covers(rb, s2) && j < |rb| && n <= |rb|
    requires forall a :: 0 <= a < j ==> s1[rb[a]] == s2[rb[a]]
    ensures MaxEnd(txs, rb, s1, j, n) == MaxEnd(txs, rb, s2, j, n)
  {
    if n > 0 {
      MaxEndEarlier(txs, rb, s1, s2, j, n - 1);
    }
  }

  /** Before its own outer step, a sub-transaction's start time is the one
      it came with; from that step on it stays as that step left it. */
  lemma {:induction false} ScheduleStable(txs: map<string, TxInfo>, rb: seq<string>, sched: map<string, int>, k: nat, b: nat)
    requires Listed(txs, rb) && Covers(rb, sched) && Distinct(rb) && k <= |rb| && b < |rb|
    ensures k <= b ==> Schedule(txs, rb, sched, k)[rb[b]] == sched[rb[b]]
    ensures b < k ==> Schedule(txs, rb, sched, k)[rb[b]] == Schedule(txs, rb, sched, b + 1)[rb[b]]
  {
    if k > 0 && k != b + 1 {
      ScheduleStable(txs, rb, sched, k - 1, b);
      var prev := Schedule(txs, rb, sched, k - 1);
      assert rb[k - 1] != rb[b];
      assert Schedule(txs, rb, sched, k) == prev[rb[k - 1] := MaxEnd(txs, rb, prev, k - 1, |rb|)];
      assert Schedule(txs, rb, sched, k)[rb[b]] == prev[rb[b]];
    }
  }

  /** The same for dependencies_in: untouched before its own step, ... */
  lemma {:induction false} DepsInBefore(txs: map<string, TxInfo>, rb: seq<string>, d: map<string, set<string>>, k: nat, b: nat)
    requires Listed(txs, rb) && Covers(rb, d) && Distinct(rb) && k <= b < |rb|
    ensures DepsIn(txs, rb, d, k)[rb[b]] == d[rb[b]]
  {
    if k > 0 {
      DepsInBefore(txs, rb, d, k - 1, b);
      assert rb[k - 1] != rb[b];
    }
  }

  /** ... and holding what its own step added from then on. */
  lemma {:induction false} DepsInAfter(txs: map<string, TxInfo>, rb: seq<string>, d: map<string, set<string>>, k: nat, b: nat)
    requires Listed(txs, rb) && Covers(rb, d) && Distinct(rb) && b < k <= |rb|
    ensures DepsIn(txs, rb, d, k)[rb[b]] == d[rb[b]] + Preds(txs, rb, b, |rb|)
  {
    var prev := DepsIn(txs, rb, d, k - 1);
    if k == b + 1 {
      DepsInBefore(txs, rb, d, b, b);
    } else {
      DepsInAfter(txs, rb, d, k - 1, b);
      assert rb[k - 1] != rb[b];
    }
  }

  /** The same for the unconflicted sets. */
  lemma {:induction false} UnConfStable(txs: map<string, TxInfo>, rb: seq<string>, u: map<string, set<string>>, k: nat, b: nat)
    requires Listed(txs, rb) && Distinct(rb) && k <= |rb| && b < |rb|
    ensures k <= b ==> Get(UnConf(txs, rb, u, k), rb[b]) == Get(u, rb[b])
    ensures b < k ==> rb[b] in UnConf(txs, rb, u, k) && UnConf(txs, rb, u, k)[rb[b]] == UnConf(txs, rb, u, b + 1)[rb[b]]
  {
    if k > 0 && k != b + 1 {
      UnConfStable(txs, rb, u, k - 1, b);
      assert rb[k - 1] != rb[b];
    }
  }

  lemma SuccsStep(txs: map<string, TxInfo>, rb: seq<string>, x: string, k: nat)
    requires Listed(txs, rb) && 0 < k <= |rb|
    ensures Succs(txs, rb, x, k) == Succs(txs, rb, x, k - 1) + (if x in Preds(txs, rb, k - 1, |rb|) then {rb[k - 1]} else {})
  {
  }

  /** The dependencies_out a sub-transaction ends up with. */
  lemma {:induction false} DepsOutSuccs(txs: map<string, TxInfo>, rb: seq<string>, d: map<string, set<string>>, k: nat, x: string)
    requires Listed(txs, rb) && Covers(rb, d) && k <= |rb| && x in d
    ensures DepsOut(txs, rb, d, k)[x] == d[x] + Succs(txs, rb, x, k)
  {
    if k > 0 {
      DepsOutSuccs(txs, rb, d, k - 1, x);
      var prev := DepsOut(txs, rb, d, k - 1);
      assert DepsOut(txs, rb, d, k)[x] == prev[x] + (if x in Preds(txs, rb, k - 1, |rb|) then {rb[k - 1]} else {});
      SuccsStep(txs, rb, x, k);
    }
  }

  /** Every start time of the built graph is the latest end of the earlier
      sub-transactions it conflicts with, or 0 when there is none. */
  lemma ScheduleFixpoint(txs: map<string, TxInfo>, rb: seq<string>, sched: map<string, int>, b: nat)
    requires Listed(txs, rb) && Covers(rb, sched) && Distinct(rb) && b < |rb|
    ensures Schedule(txs, rb, sched, |rb|)[rb[b]] == MaxEnd(txs, rb, Schedule(txs, rb, sched, |rb|), b, |rb|)
  {
    var final := Schedule(txs, rb, sched, |rb|);
    ScheduleStable(txs, rb, sched, |rb|, b);
    forall a | 0 <= a < b
      ensures Schedule(txs, rb, sched, b)[rb[a]] == final[rb[a]]
    {
      ScheduleStable(txs, rb, sched, b, a);
      ScheduleStable(txs, rb, sched, |rb|, a);
    }
    MaxEndEarlier(txs, rb, Schedule(txs, rb, sched, b), final, b, |rb|);
  }

  /** The schedule buildGraphOrigin lays out: no sub-transaction starts
      before an earlier one it conflicts with has ended, none starts before
      0, and each starts at 0 or right at the end of such a predecessor. */
  lemma OriginSchedule(txs: map<string, TxInfo>, rb: seq<string>, sched: map<string, int>)
    requires Listed(txs, rb) && Covers(rb, sched) && Distinct(rb)
    ensures var final := Schedule(txs, rb, sched, |rb|);
      forall a, b :: 0 <= a < b < |rb| && Conflicts(txs, rb, a, b) ==>
        final[rb[a]] + txs[rb[a]].cost <= final[rb[b]]
    ensures var final := Schedule(txs, rb, sched, |rb|);
      forall b :: 0 <= b < |rb| ==>
        && 0 <= final[rb[b]]
        && (|| final[rb[b]] == 0
            || exists a :: 0 <= a < b && Conflicts(txs, rb, a, b) &&
                 final[rb[b]] == final[rb[a]] + txs[rb[a]].cost)
  {
    var final := Schedule(txs, rb, sched, |rb|);
    forall b | 0 <= b < |rb|
      ensures forall a :: 0 <= a < b && Conflicts(txs, rb, a, b) ==>
        final[rb[a]] + txs[rb[a]].cost <= final[rb[b]]
      ensures 0 <= final[rb[b]]
      ensures || final[rb[b]] == 0
              || exists a :: 0 <= a < b && Conflicts(txs, rb, a, b) &&
                   final[rb[b]] == final[rb[a]] + txs[rb[a]].cost
    {
      ScheduleFixpoint(txs, rb, sched, b);
      MaxEndBounds(txs, rb, final, b, |rb|);
    }
  }

  /** With distinct ids, the `a`-th entry is among the conflicting
      predecessors of the `b`-th exactly when it comes earlier and the two
      conflict. */
  lemma PredsOf(txs: map<string, TxInfo>, rb: seq<string>, a: nat, b: nat)
    requires Listed(txs, rb) && Distinct(rb) && a < |rb| && b < |rb|
    ensures rb[a] in Preds(txs, rb, b, |rb|) <==> a < b && Conflicts(txs, rb, a, b)
  {
    if rb[a] in Preds(txs, rb, b, |rb|) {
      var a' :| 0 <= a' < |rb| && a' < b && Conflicts(txs, rb, a', b) && rb[a'] == rb[a];
      assert a' == a;
    }
  }

  /** With distinct ids, the `b`-th entry is among the successors of the
      `a`-th exactly when the `a`-th is among its conflicting predecessors. */
  lemma SuccsOf(txs: map<string, TxInfo>, rb: seq<string>, a: nat, b: nat)
    requires Listed(txs, rb) && Distinct(rb) && a < |rb| && b < |rb|
    ensures rb[b] in Succs(txs, rb, rb[a], |rb|) <==> rb[a] in Preds(txs, rb, b, |rb|)
  {
    if rb[b] in Succs(txs, rb, rb[a], |rb|) {
      var b' :| 0 <= b' < |rb| && rb[a] in Preds(txs, rb, b', |rb|) && rb[b'] == rb[b];
      assert b' == b;
    }
  }

  /** The dependencies_in buildGraphOrigin adds, starting from empty sets:
      the `b`-th sub-transaction waits for the `a`-th exactly when `a` comes
      earlier and the two conflict, and waits for nothing outside the list. */
  lemma OriginDepsIn(txs: map<string, TxInfo>, rb: seq<string>, din: map<string, set<string>>)
    requires Listed(txs, rb) && Covers(rb, din) && Distinct(rb)
    requires forall i :: 0 <= i < |rb| ==> din[rb[i]] == {}
    ensures forall a, b :: 0 <= a < |rb| && 0 <= b < |rb| ==>
      (rb[a] in DepsIn(txs, rb, din, |rb|)[rb[b]] <==> a < b && Conflicts(txs, rb, a, b))
    ensures forall b, x :: 0 <= b < |rb| && x in DepsIn(txs, rb, din, |rb|)[rb[b]] ==>
      exists a :: 0 <= a < b && rb[a] == x
  {
    forall b | 0 <= b < |rb|
      ensures DepsIn(txs, rb, din, |rb|)[rb[b]] == Preds(txs, rb, b, |rb|)
    {
      DepsInAfter(txs, rb, din, |rb|, b);
    }
    forall a, b | 0 <= a < |rb| && 0 <= b < |rb|
      ensures rb[a] in Preds(txs, rb, b, |rb|) <==> a < b && Conflicts(txs, rb, a, b)
    {
      PredsOf(txs, rb, a, b);
    }
  }

  /** The dependencies_out buildGraphOrigin adds, starting from empty sets:
      the `a`-th sub-transaction lists the `b`-th as waiting for it exactly
      when `a` comes earlier and the two conflict. */
  lemma OriginDepsOut(txs: map<string, TxInfo>, rb: seq<string>, dout: map<string, set<string>>)
    requires Listed(txs, rb) && Covers(rb, dout) && Distinct(rb)
    requires forall i :: 0 <= i < |rb| ==> dout[rb[i]] == {}
    ensures forall a, b :: 0 <= a < |rb| && 0 <= b < |rb| ==>
      (rb[b] in DepsOut(txs, rb, dout, |rb|)[rb[a]] <==> a < b && Conflicts(txs, rb, a, b))
  {
    forall a, b | 0 <= a < |rb| && 0 <= b < |rb|
      ensures rb[b] in DepsOut(txs, rb, dout, |rb|)[rb[a]] <==> a < b && Conflicts(txs, rb, a, b)
    {
      DepsOutSuccs(txs, rb, dout, |rb|, rb[a]);
      SuccsOf(txs, rb, a, b);
      PredsOf(txs, rb, a, b);
    }
  }

  /** The unconflicted sets buildGraphOrigin fills: each sub-transaction of
      the list gains exactly the ones (itself included) it does not conflict
      with. */
  lemma OriginUnConflict(txs: map<string, TxInfo>, rb: seq<string>, u: map<string, set<string>>)
    requires Listed(txs, rb) && Distinct(rb)
    ensures forall b :: 0 <= b < |rb| ==> rb[b] in UnConf(txs, rb, u, |rb|)
    ensures forall b, x :: 0 <= b < |rb| ==>
      (x in UnConf(txs, rb, u, |rb|)[rb[b]] <==>
         x in Get(u, rb[b]) || exists a :: 0 <= a < |rb| && rb[a] == x && !Conflicts(txs, rb, a, b))
  {
    forall b | 0 <= b < |rb|
      ensures rb[b] in UnConf(txs, rb, u, |rb|)
    {
      UnConfStable(txs, rb, u, |rb|, b);
    }
    forall b, x | 0 <= b < |rb|
      ensures x in UnConf(txs, rb, u, |rb|)[rb[b]] <==>
         x in Get(u, rb[b]) || exists a :: 0 <= a < |rb| && rb[a] == x && !Conflicts(txs, rb, a, b)
    {
      UnConfStable(txs, rb, u, |rb|, b);
      UnConfStable(txs, rb, u, b, b);
    }
  }

  // ---------------------------------------------------------------------
  // The inner-scan steps, one entry at a time

  lemma MaxEndStep(txs: map<string, TxInfo>, rb: seq<string>, sched: map<string, int>, j: nat, n: nat)
    requires Listed(txs, rb) && Covers(rb, sched) && j < |rb| && n < |rb|
    ensures MaxEnd(txs, rb, sched, j, n + 1) ==
      if n < j && Conflicts(txs, rb, n, j) then Max(MaxEnd(txs, rb, sched, j, n), sched[rb[n]] + txs[rb[n]].cost)
      else MaxEnd(txs, rb, sched, j, n)
  {
  }

  lemma PredsStep(txs: map<string, TxInfo>, rb: seq<string>, j: nat, n: nat)
    requires Listed(txs, rb) && j < |rb| && n < |rb|
    ensures Preds(txs, rb, j, n + 1) ==
      Preds(txs, rb, j, n) + (if n < j && Conflicts(txs, rb, n, j) then {rb[n]} else {})
  {
  }

  lemma NonConfStep(txs: map<string, TxInfo>, rb: seq<string>, j: nat, n: nat)
    requires Listed(txs, rb) && j < |rb| && n < |rb|
    ensures NonConf(txs, rb, j, n + 1) ==
      NonConf(txs, rb, j, n) + (if !Conflicts(txs, rb, n, j) then {rb[n]} else {})
  {
  }

  lemma AddSuccStep(txs: map<string, TxInfo>, rb: seq<string>, d: map<string, set<string>>, j: nat, n: nat)
    requires Listed(txs, rb) && Covers(rb, d) && j < |rb| && n < |rb|
    ensures var prev := AddSucc(txs, rb, d, j, n);
      AddSucc(txs, rb, d, j, n + 1) ==
        if n < j && Conflicts(txs, rb, n, j) then prev[rb[n] := prev[rb[n]] + {rb[j]}] else prev
  {
    PredsStep(txs, rb, j, n);
  }

  /** The conflict test of buildGraphOrigin, made of three hasConflict
      calls. */
  method ConflictTest(ti: TxInfo, tj: TxInfo) returns (c: bool)
    ensures c <==> Conflict(ti, tj)
  {
    var c1 := SetOps.HasConflict(ti.writeSet, tj.readSet);
    var c2 := SetOps.HasConflict(ti.writeSet, tj.writeSet);
    var c3 := SetOps.HasConflict(ti.readSet, tj.writeSet);
    SharedIff(ti.writeSet, tj.readSet);
    SharedIff(ti.writeSet, tj.writeSet);
    SharedIff(ti.readSet, tj.writeSet);
    c := c1 || c2 || c3;
  }

  lemma SharedIff(a: set<string>, b: set<string>)
    ensures (exists x :: x in b && x in a) <==> a * b != {}
  {
    if a * b != {} {
      var x :| x in a * b;
      assert x in b && x in a;
    }
    if exists x :: x in b && x in a {
      var x :| x in b && x in a;
      assert x in a * b;
    }
  }

  // ---------------------------------------------------------------------
  // buildGraphOrigin over the graph's values

  /** The graph's maps cover the known sub-transactions, and every
      dependency and unconflicted sub-transaction is known. */
  ghost predicate Closed(txs: map<string, TxInfo>, sched: map<string, int>, din: map<string, set<string>>,
                         dout: map<string, set<string>>, unc: map<string, set<string>>) {
    && sched.Keys == txs.Keys && din.Keys == txs.Keys && dout.Keys == txs.Keys
    && (forall x :: x in din ==> din[x] <= txs.Keys)
    && (forall x :: x in unc ==> unc[x] <= txs.Keys)
  }

  /** One step of the inner scan of buildGraphOrigin: the `i`-th
      sub-transaction against the `j`-th. */
  method ScanStep(txs: map<string, TxInfo>, rb: seq<string>, sched: map<string, int>, din: map<string, set<string>>,
                  dout: map<string, set<string>>, unc: map<string, set<string>>, j: nat, i: nat,
                  start: int, ins: set<string>, out: map<string, set<string>>, unconflicted: set<string>)
    returns (start': int, ins': set<string>, out': map<string, set<string>>, unconflicted': set<string>)
    requires Listed(txs, rb) && Covers(rb, sched) && Covers(rb, din) && Covers(rb, dout) && j < |rb| && i < |rb|
    requires start == MaxEnd(txs, rb, sched, j, i)
    requires ins == din[rb[j]] + Preds(txs, rb, j, i)
    requires out == AddSucc(txs, rb, dout, j, i)
    requires unconflicted == Get(unc, rb[j]) + NonConf(txs, rb, j, i)
    ensures start' == MaxEnd(txs, rb, sched, j, i + 1)
    ensures ins' == din[rb[j]] + Preds(txs, rb, j, i + 1)
    ensures out' == AddSucc(txs, rb, dout, j, i + 1)
    ensures unconflicted' == Get(unc, rb[j]) + NonConf(txs, rb, j, i + 1)
  {
    var ti, tj := rb[i], rb[j];
    var conflict := ConflictTest(txs[ti], txs[tj]);
    MaxEndStep(txs, rb, sched, j, i);
    PredsStep(txs, rb, j, i);
    NonConfStep(txs, rb, j, i);
    AddSuccStep(txs, rb, dout, j, i);
    start', ins', out', unconflicted' := start, ins, out, unconflicted;
    if conflict {
      if i < j {
        ins' := ins' + {ti};
        out' := out'[ti := out'[ti] + {tj}];
        var newScheduledTime := sched[ti] + txs[ti].cost;
        start' := Max(start', newScheduledTime);
      }
    } else {
      unconflicted' := unconflicted' + {ti};
    }
  }

  /** The inner scan of buildGraphOrigin for the `j`-th sub-transaction. */
  method ScanEntry(txs: map<string, TxInfo>, rb: seq<string>, sched: map<string, int>, din: map<string, set<string>>,
                   dout: map<string, set<string>>, unc: map<string, set<string>>, j: nat)
    returns (sched': map<string, int>, din': map<string, set<string>>, dout': map<string, set<string>>, unc': map<string, set<string>>)
    requires Listed(txs, rb) && Covers(rb, sched) && Covers(rb, din) && Covers(rb, dout) && j < |rb|
    ensures sched' == sched[rb[j] := MaxEnd(txs, rb, sched, j, |rb|)]
    ensures din' == din[rb[j] := din[rb[j]] + Preds(txs, rb, j, |rb|)]
    ensures dout' == AddSucc(txs, rb, dout, j, |rb|)
    ensures unc' == unc[rb[j] := Get(unc, rb[j]) + NonConf(txs, rb, j, |rb|)]
  {
    var tj := rb[j];
    // Tj's start time, dependencies_in and unconflicted set, kept aside
    // while the scan runs: no other entry of those maps changes.
    var start, ins, unconflicted := 0, din[tj], Get(unc, tj);
    dout' := dout;
    assert ins + Preds(txs, rb, j, 0) == ins && unconflicted + NonConf(txs, rb, j, 0) == unconflicted;
    var i := 0;
    while i < |rb|
      invariant 0 <= i <= |rb|
      invariant start == MaxEnd(txs, rb, sched, j, i)
      invariant ins == din[tj] + Preds(txs, rb, j, i)
      invariant dout' == AddSucc(txs, rb, dout, j, i)
      invariant unconflicted == Get(unc, tj) + NonConf(txs, rb, j, i)
    {
      start, ins, dout', unconflicted := ScanStep(txs, rb, sched, din, dout, unc, j, i, start, ins, dout', unconflicted);
      i := i + 1;
    }
    assert i == |rb|;
    sched', din', unc' := sched[tj := start], din[tj := ins], unc[tj := unconflicted];
  }

  /** buildGraphOrigin over the graph's values. */
  method BuildOrigin(txs: map<string, TxInfo>, rb: seq<string>, sched: map<string, int>, din: map<string, set<string>>,
                     dout: map<string, set<string>>, unc: map<string, set<string>>)
    returns (sched': map<string, int>, din': map<string, set<string>>, dout': map<string, set<string>>, unc': map<string, set<string>>)
    requires Listed(txs, rb) && Covers(rb, sched) && Covers(rb, din) && Covers(rb, dout)
    ensures sched' == Schedule(txs, rb, sched, |rb|)
    ensures din' == DepsIn(txs, rb, din, |rb|)
    ensures dout' == DepsOut(txs, rb, dout, |rb|)
    ensures unc' == UnConf(txs, rb, unc, |rb|)
  {
    sched', din', dout', unc' := sched, din, dout, unc;
    for j := 0 to |rb|
      invariant sched' == Schedule(txs, rb, sched, j)
      invariant din' == DepsIn(txs, rb, din, j)
      invariant dout' == DepsOut(txs, rb, dout, j)
      invariant unc' == UnConf(txs, rb, unc, j)
    {
      OriginStep(txs, rb, sched, din, dout, unc, j, sched', din', dout', unc');
      sched', din', dout', unc' := ScanEntry(txs, rb, sched', din', dout', unc', j);
    }
  }

  /** One outer step of buildGraphOrigin: the scan for the `k`-th
      sub-transaction, applied to the graph after the first `k`. */
  lemma OriginStep(txs: map<string, TxInfo>, rb: seq<string>, sched: map<string, int>, din: map<string, set<string>>,
                   dout: map<string, set<string>>, unc: map<string, set<string>>, k: nat,
                   s: map<string, int>, d: map<string, set<string>>, o: map<string, set<string>>, u: map<string, set<string>>)
    requires Listed(txs, rb) && Covers(rb, sched) && Covers(rb, din) && Covers(rb, dout) && k < |rb|
    requires s == Schedule(txs, rb, sched, k) && d == DepsIn(txs, rb, din, k)
    requires o == DepsOut(txs, rb, dout, k) && u == UnConf(txs, rb, unc, k)
    ensures Covers(rb, s) && Covers(rb, d) && Covers(rb, o)
    ensures Schedule(txs, rb, sched, k + 1) == s[rb[k] := MaxEnd(txs, rb, s, k, |rb|)]
    ensures DepsIn(txs, rb, din, k + 1) == d[rb[k] := d[rb[k]] + Preds(txs, rb, k, |rb|)]
    ensures DepsOut(txs, rb, dout, k + 1) == AddSucc(txs, rb, o, k, |rb|)
    ensures UnConf(txs, rb, unc, k + 1) == u[rb[k] := Get(u, rb[k]) + NonConf(txs, rb, k, |rb|)]
  {
  }

  /** buildGraphOrigin adds only known sub-transactions to the graph. */
  lemma OriginClosed(txs: map<string, TxInfo>, rb: seq<string>, sched: map<string, int>,
                     din: map<string, set<string>>, dout: map<string, set<string>>,
                     unc: map<string, set<string>>, k: nat)
    requires Listed(txs, rb) && Closed(txs, sched, din, dout, unc) && k <= |rb|
    ensures Closed(txs, Schedule(txs, rb, sched, k), DepsIn(txs, rb, din, k), DepsOut(txs, rb, dout, k), UnConf(txs, rb, unc, k))
  {
    DepsInKnown(txs, rb, din, k);
    UnConfKnown(txs, rb, unc, k);
  }

  lemma {:induction false} DepsInKnown(txs: map<string, TxInfo>, rb: seq<string>, din: map<string, set<string>>, k: nat)
    requires Listed(txs, rb) && Covers(rb, din) && k <= |rb|
    requires forall x :: x in din ==> din[x] <= txs.Keys
    ensures forall x :: x in DepsIn(txs, rb, din, k) ==> DepsIn(txs, rb, din, k)[x] <= txs.Keys
  {
    if k > 0 {
      DepsInKnown(txs, rb, din, k - 1);
      assert Preds(txs, rb, k - 1, |rb|) <= txs.Keys;
    }
  }

  lemma {:induction false} UnConfKnown(txs: map<string, TxInfo>, rb: seq<string>, unc: map<string, set<string>>, k: nat)
    requires Listed(txs, rb) && k <= |rb|
    requires forall x :: x in unc ==> unc[x] <= txs.Keys
    ensures forall x :: x in UnConf(txs, rb, unc, k) ==> UnConf(txs, rb, unc, k)[x] <= txs.Keys
  {
    if k > 0 {
      UnConfKnown(txs, rb, unc, k - 1);
      assert NonConf(txs, rb, k - 1, |rb|) <= txs.Keys;
    }
  }
}
