/** Deterministic re-execution scheduling (protocol/loom/DeterReExecute.cpp):
    the rolled-back sub-transactions of a block, in queue order, laid out on
    a time-space graph.  Each sub-transaction gets a start time and the sets
    of sub-transactions it waits for (dependencies_in) and that wait for it
    (dependencies_out); a sub-transaction can be moved to an earlier start
    when the interval it would occupy is idle.

    Sub-transactions are named by their ids; what the graph reads of each
    (hyper id, cost, read and write sets) is a `TxInfo`, and what it writes
    (start time, dependencies, the unconflicted sets) are maps of the
    DeterReExecute object.  Costs and start times are integers. */
module DeterReExecution {
  import opened DeterGraph
  import opened DeterMoves

  /** A DeterReExecute object: the rolled-back list in queue order, the
      sub-transactions it schedules, and the time-space graph over them. */
  class DeterReExecute {
    const txs: map<string, TxInfo>
    const rbList: seq<string>
    const orderIndex: map<int, int>
    var scheduled: map<string, int>
    var depsIn: map<string, set<string>>
    var depsOut: map<string, set<string>>
    var unConflict: map<string, set<string>>
    var totalExecTime: int

    ghost predicate Valid()
      reads this
    {
      Listed(txs, rbList) && Distinct(rbList) && Closed(txs, scheduled, depsIn, depsOut, unConflict)
    }

    /** A fresh graph: every start time 0, no dependencies, no unconflicted
        sets yet. */
    constructor(txs: map<string, TxInfo>, rbList: seq<string>, orderIndex: map<int, int>)
      requires Listed(txs, rbList) && Distinct(rbList)
      ensures Valid()
      ensures this.txs == txs && this.rbList == rbList && this.orderIndex == orderIndex
      ensures scheduled == map x | x in txs :: 0
      ensures depsIn == (map x | x in txs :: {}) && depsOut == (map x | x in txs :: {})
      ensures unConflict == map[] && totalExecTime == 0
    {
      this.txs := txs;
      this.rbList := rbList;
      this.orderIndex := orderIndex;
      scheduled := map x | x in txs :: 0;
      depsIn := map x | x in txs :: {};
      depsOut := map x | x in txs :: {};
      unConflict := map[];
      totalExecTime := 0;
    }

    /** buildGraphOrigin: lays out the list in queue order, ignoring the
        nesting of sub-transactions (OriginSchedule, OriginDepsIn,
        OriginDepsOut and OriginUnConflict say what the result means). */
    method BuildGraphOrigin()
      requires Valid()
      modifies this`scheduled, this`depsIn, this`depsOut, this`unConflict
      ensures Valid()
      ensures scheduled == Schedule(txs, rbList, old(scheduled), |rbList|)
      ensures depsIn == DepsIn(txs, rbList, old(depsIn), |rbList|)
      ensures depsOut == DepsOut(txs, rbList, old(depsOut), |rbList|)
      ensures unConflict == UnConf(txs, rbList, old(unConflict), |rbList|)
    {
      OriginClosed(txs, rbList, scheduled, depsIn, depsOut, unConflict, |rbList|);
      scheduled, depsIn, depsOut, unConflict := BuildOrigin(txs, rbList, scheduled, depsIn, depsOut, unConflict);
    }

    /** getCandidateTxSet: the sub-transactions `tx` does not conflict with
        that start strictly after it. */
    method GetCandidateTxSet(tx: string) returns (ts: set<string>)
      requires Valid() && tx in txs
      ensures forall c :: c in ts <==> c in Get(unConflict, tx) && scheduled[c] > scheduled[tx]
    {
      ts := LaterOnes(scheduled, Get(unConflict, tx), scheduled[tx]);
    }

    /** reschedule: moves `tx` to start at `s` and turns each dependency
        that now starts after it into a sub-transaction waiting for it
        (RescheduleFlips says what this keeps). */
    method Reschedule(tx: string, s: int)
      requires Valid() && tx in txs
      modifies this`scheduled, this`depsIn, this`depsOut
      ensures Valid()
      ensures scheduled == old(scheduled)[tx := s]
      ensures depsIn == FlipIn(old(depsIn), tx, Late(txs, scheduled, old(depsIn)[tx], s))
      ensures depsOut == FlipOut(old(depsOut), tx, Late(txs, scheduled, old(depsIn)[tx], s))
    {
      scheduled := scheduled[tx := s];
      if depsIn[tx] == {} {
        FlipNothing(txs, scheduled, depsIn, depsOut, tx, s);
        return;
      }
      depsIn, depsOut := FlipLate(txs, scheduled, depsIn, depsOut, tx, s);
    }

    /** isIdle on the current graph. */
    predicate Idle(tx: string, start: int)
      reads this
      requires Valid() && tx in txs
    {
      IsIdle(txs, scheduled, depsIn[tx], tx, start)
    }

    /** calculateExecutionTime: sets `tx`'s start to the latest end of its
        dependencies, or 0 when it has none, and returns it. */
    method CalculateExecutionTime(tx: string) returns (t: int)
      requires Valid() && tx in txs
      modifies this`scheduled
      ensures Valid()
      ensures 0 <= t
      ensures forall c :: c in depsIn[tx] ==> old(scheduled)[c] + txs[c].cost <= t
      ensures t == 0 || exists c :: c in depsIn[tx] && t == old(scheduled)[c] + txs[c].cost
      ensures scheduled == old(scheduled)[tx := t]
    {
      t := LatestEnd(txs, scheduled, depsIn[tx]);
      scheduled := scheduled[tx := t];
    }

    /** calculateTotalExecutionTime: recomputes each start time in list
        order, each from the schedule the earlier steps left, and returns
        the latest end, which bounds every cost. */
    method CalculateTotalExecutionTime() returns (r: int)
      requires Valid()
      modifies this`scheduled, this`totalExecTime
      ensures Valid() && totalExecTime == r && 0 <= r
      ensures forall j :: 0 <= j < |rbList| ==> 0 <= scheduled[rbList[j]] && scheduled[rbList[j]] + txs[rbList[j]].cost <= r
      ensures forall j :: 0 <= j < |rbList| ==> txs[rbList[j]].cost <= r
      ensures r == 0 || exists j :: 0 <= j < |rbList| && r == scheduled[rbList[j]] + txs[rbList[j]].cost
      ensures forall k, j :: 0 <= k < j < |rbList| && rbList[k] in depsIn[rbList[j]] ==>
        scheduled[rbList[k]] + txs[rbList[k]].cost <= scheduled[rbList[j]]
      ensures forall x :: x in scheduled && x !in rbList ==> scheduled[x] == old(scheduled)[x]
      ensures scheduled == Recomputed(txs, rbList, old(scheduled), depsIn, |rbList|)
      ensures r == Finish(txs, rbList, old(scheduled), depsIn, |rbList|)
    {
      scheduled, totalExecTime := TotalTime(txs, rbList, scheduled, depsIn);
      r := totalExecTime;
    }

    /** canReorder on the object's order index. */
    function CanReorderTxs(tx1: string, tx2: string): bool
      requires tx1 in txs && tx2 in txs
    {
      CanReorder(orderIndex, txs[tx1], txs[tx2])
    }
  }
}
