/** OptME's reservation table and inter-epoch rescheduling
    (protocol/optme/OptME.cpp).  The table keeps, per key, the newest block
    that reserved a read and the block that holds the write reservation with
    its pending-write counts; aborted transactions are then spread over
    epochs so that each epoch's write keys are kept apart. */
module OptME {
  import SetOps

  /** A transaction as the table sees it.  Block ids start at 1; 0 in an entry
      means "no block". */
  datatype OptTx = OptTx(id: nat, blockId: nat)

  /** OptMEEntry without its value and its (unused) reserved-get set. */
  datatype Entry = Entry(blockIdGet: nat, blockIdPut: nat, reservedPutNum: nat, nextReservedPut: nat)

  const Empty: Entry := Entry(0, 0, 0, 0)

  /** A write block is recorded exactly when it has a pending write, and no
      later writes are pending without one. */
  predicate ValidEntry(e: Entry) {
    (e.blockIdPut == 0 ==> e.reservedPutNum == 0 && e.nextReservedPut == 0) &&
    (e.blockIdPut != 0 ==> e.reservedPutNum >= 1)
  }

  /** OptMETable::ReserveGet on one entry: the read is aborted when any other
      block holds the write reservation; otherwise the entry remembers the
      newest block that read it. */
  function ReserveGet(e: Entry, tx: OptTx): (r: (Entry, bool))
    ensures r.1 <==> e.blockIdPut != 0 && e.blockIdPut != tx.blockId
    ensures r.1 ==> r.0 == e
    ensures !r.1 ==> r.0.blockIdGet >= e.blockIdGet && r.0.blockIdGet >= tx.blockId &&
                     (r.0.blockIdGet == e.blockIdGet || r.0.blockIdGet == tx.blockId)
    ensures (r.0.blockIdPut, r.0.reservedPutNum, r.0.nextReservedPut) ==
            (e.blockIdPut, e.reservedPutNum, e.nextReservedPut)
  {
    if e.blockIdPut == 0 || e.blockIdPut == tx.blockId then
      (e.(blockIdGet := if e.blockIdGet < tx.blockId then tx.blockId else e.blockIdGet), false)
    else (e, true)
  }

  /** OptMETable::ReservePut on one entry: a free entry is taken with one
      pending write, the holding block adds one, a later block is counted as
      "next", and an earlier block leaves the entry alone. */
  function ReservePut(e: Entry, tx: OptTx): (r: Entry)
    ensures r.blockIdGet == e.blockIdGet
    ensures r.blockIdPut == if e.blockIdPut == 0 then tx.blockId else e.blockIdPut
    ensures e.blockIdPut > tx.blockId ==> r == e
    ensures e.blockIdPut == 0 ==> r.reservedPutNum == 1 && r.nextReservedPut == e.nextReservedPut
    ensures e.blockIdPut != 0 && e.blockIdPut == tx.blockId ==>
      r.reservedPutNum == e.reservedPutNum + 1 && r.nextReservedPut == e.nextReservedPut
    ensures e.blockIdPut != 0 && e.blockIdPut < tx.blockId ==>
      r.reservedPutNum == e.reservedPutNum && r.nextReservedPut == e.nextReservedPut + 1
    ensures ValidEntry(e) && tx.blockId >= 1 ==> ValidEntry(r)
  {
    if e.blockIdPut == 0 then e.(blockIdPut := tx.blockId, reservedPutNum := 1)
    else if e.blockIdPut == tx.blockId then e.(reservedPutNum := e.reservedPutNum + 1)
    else if e.blockIdPut < tx.blockId then e.(nextReservedPut := e.nextReservedPut + 1)
    else e
  }

  /** OptME::Finalize on one written key: the holding block's pending count
      drops by one; at zero the reservation passes to the following block when
      later writes are pending and is cleared otherwise. */
  function FinalizePut(e: Entry, tx: OptTx): (r: Entry)
    requires ValidEntry(e) && tx.blockId >= 1
    ensures ValidEntry(r)
    ensures r.blockIdGet == e.blockIdGet
    ensures e.blockIdPut != tx.blockId ==> r == e
    ensures e.blockIdPut == tx.blockId && e.reservedPutNum > 1 ==>
      r == e.(reservedPutNum := e.reservedPutNum - 1)
    ensures e.blockIdPut == tx.blockId && e.reservedPutNum == 1 ==>
      if e.nextReservedPut > 0
      then r.blockIdPut == e.blockIdPut + 1 && r.reservedPutNum == e.nextReservedPut && r.nextReservedPut == 0
      else r.blockIdPut == 0 && r.reservedPutNum == 0 && r.nextReservedPut == 0
  {
    if e.blockIdPut == tx.blockId then
      if e.reservedPutNum - 1 == 0 then
        if e.nextReservedPut > 0
        then e.(blockIdPut := e.blockIdPut + 1, reservedPutNum := e.nextReservedPut, nextReservedPut := 0)
        else e.(blockIdPut := 0, reservedPutNum := 0)
      else e.(reservedPutNum := e.reservedPutNum - 1)
    else e
  }

  /** A write reserved on a free entry, or on one its own block holds, and then
      finalized leaves no trace. */
  lemma ReservePutThenFinalize(e: Entry, tx: OptTx)
    requires ValidEntry(e) && tx.blockId >= 1
    requires e.blockIdPut == 0 || e.blockIdPut == tx.blockId
    ensures FinalizePut(ReservePut(e, tx), tx) == e
  {
  }

  /** A read and a write of the same block never abort each other: once `tx`
      has reserved a write, a read of its own block is let through. */
  lemma OwnWriteDoesNotBlockRead(e: Entry, tx: OptTx, other: OptTx)
    requires ValidEntry(e) && tx.blockId >= 1 && other.blockId == tx.blockId
    requires e.blockIdPut == 0 || e.blockIdPut == tx.blockId
    ensures !ReserveGet(ReservePut(e, tx), other).1
  {
  }

  /** The table: the entries of the keys touched so far and the transactions'
      abort and commit flags. */
  class Table {
    var entries: map<string, Entry>
    var aborted: set<OptTx>
    var committed: set<OptTx>

    ghost predicate Valid()
      reads this
    {
      forall k :: k in entries ==> ValidEntry(entries[k])
    }

    /** The entry of a key; `Table::Put` default-constructs a missing one. */
    function Get(k: string): Entry
      reads this
    {
      if k in entries then entries[k] else Empty
    }

    constructor ()
      ensures Valid() && entries == map[] && aborted == {} && committed == {}
    {
      entries := map[];
      aborted := {};
      committed := {};
    }

    /** OptMETable::ReserveGet. */
    method ReserveGetKey(tx: OptTx, k: string)
      requires Valid()
      modifies this
      ensures Valid()
      ensures entries == old(entries)[k := ReserveGet(old(Get(k)), tx).0]
      ensures aborted == if ReserveGet(old(Get(k)), tx).1 then old(aborted) + {tx} else old(aborted)
      ensures committed == old(committed)
    {
      var e := Get(k);
      if e.blockIdPut == 0 || e.blockIdPut == tx.blockId {
        if e.blockIdGet < tx.blockId {
          e := e.(blockIdGet := tx.blockId);
        }
      } else {
        aborted := aborted + {tx};
      }
      entries := entries[k := e];
    }

    /** OptMETable::ReservePut. */
    method ReservePutKey(tx: OptTx, k: string)
      requires Valid() && tx.blockId >= 1
      modifies this
      ensures Valid()
      ensures entries == old(entries)[k := ReservePut(old(Get(k)), tx)]
      ensures aborted == old(aborted) && committed == old(committed)
    {
      var e := Get(k);
      if e.blockIdPut == 0 {
        e := e.(blockIdPut := tx.blockId, reservedPutNum := 1);
      } else if e.blockIdPut == tx.blockId {
        e := e.(reservedPutNum := e.reservedPutNum + 1);
      } else if e.blockIdPut < tx.blockId {
        e := e.(nextReservedPut := e.nextReservedPut + 1);
      }
      entries := entries[k := e];
    }

    /** OptME::Finalize: marks `tx` committed and releases its write
        reservations key by key. */
    method Finalize(tx: OptTx, localPut: set<string>)
      requires Valid() && tx.blockId >= 1
      modifies this
      ensures Valid()
      ensures committed == old(committed) + {tx} && aborted == old(aborted)
      ensures forall k :: Get(k) == if k in localPut then FinalizePut(old(Get(k)), tx) else old(Get(k))
    {
      committed := committed + {tx};
      var rest := localPut;
      while rest != {}
        invariant Valid() && rest <= localPut
        invariant committed == old(committed) + {tx} && aborted == old(aborted)
        invariant forall k :: Get(k) == if k in localPut - rest then FinalizePut(old(Get(k)), tx) else old(Get(k))
        decreases rest
      {
        var k :| k in rest;
        entries := entries[k := FinalizePut(Get(k), tx)];
        rest := rest - {k};
      }
    }
  }

  // ---------------------------------------------------------------------
  // Inter-epoch reordering

  /** An aborted transaction with the keys it read and wrote. */
  datatype AbortedTx = AbortedTx(tx: OptTx, getKeys: set<string>, putKeys: set<string>)

  /** The test that moves a transaction past an epoch: its read keys, or its
      write keys, contain every key the epoch writes. */
  predicate Passes(t: AbortedTx, epochKeys: set<string>) {
    epochKeys <= t.getKeys || epochKeys <= t.putKeys
  }

  /** The epoch a transaction goes to: the first one, from `from` on, it does
      not pass; one past the end when it passes them all. */
  function EpochFrom(epochMap: seq<set<string>>, t: AbortedTx, from: nat): (e: nat)
    requires from <= |epochMap|
    ensures from <= e <= |epochMap|
    ensures forall i :: from <= i < e ==> Passes(t, epochMap[i])
    ensures e < |epochMap| ==> !Passes(t, epochMap[e])
    decreases |epochMap| - from
  {
    if from == |epochMap| || !Passes(t, epochMap[from]) then from
    else EpochFrom(epochMap, t, from + 1)
  }

  function EpochOf(epochMap: seq<set<string>>, t: AbortedTx): (e: nat)
    ensures e <= |epochMap|
    ensures forall i :: 0 <= i < e ==> Passes(t, epochMap[i])
    ensures e < |epochMap| ==> !Passes(t, epochMap[e])
  {
    EpochFrom(epochMap, t, 0)
  }

  /** `std::vector::resize(n)`: truncates, or pads with `fill`. */
  function Resize<T>(s: seq<T>, n: nat, fill: T): (r: seq<T>)
    ensures |r| == n
    ensures forall i :: 0 <= i < n && i < |s| ==> r[i] == s[i]
    ensures forall i :: |s| <= i < n ==> r[i] == fill
  {
    if |s| >= n then s[..n] else s + seq(n - |s|, _ => fill)
  }

  /** The schedules being built and the write keys of each epoch. */
  datatype Plan = Plan(schedules: seq<seq<OptTx>>, epochMap: seq<set<string>>)

  /** One turn of the loop: find the epoch, grow both vectors when it is new,
      append the transaction to that epoch's schedule and add its write keys
      to that epoch's key set. */
  function Place(p: Plan, t: AbortedTx): (q: Plan)
    requires |p.epochMap| <= |p.schedules|
    ensures |q.epochMap| <= |q.schedules|
    ensures |p.schedules| == |p.epochMap| ==> |q.schedules| == |q.epochMap|
    ensures var e := EpochOf(p.epochMap, t);
      e < |q.schedules| && e < |q.epochMap| &&
      q.epochMap[e] == (if e < |p.epochMap| then p.epochMap[e] else {}) + t.putKeys &&
      q.schedules[e] == (if e < |p.schedules| then p.schedules[e] else []) + [t.tx]
    ensures |q.epochMap| == if EpochOf(p.epochMap, t) < |p.epochMap| then |p.epochMap| else |p.epochMap| + 1
    ensures forall i :: 0 <= i < |q.epochMap| && i != EpochOf(p.epochMap, t) ==> q.epochMap[i] == p.epochMap[i]
  {
    var e := EpochOf(p.epochMap, t);
    var em := if e >= |p.epochMap| then Resize(p.epochMap, e + 1, {}) else p.epochMap;
    var sc := if e >= |p.epochMap| then Resize(p.schedules, e + 1, []) else p.schedules;
    Plan(sc[e := sc[e] + [t.tx]], em[e := em[e] + t.putKeys])
  }

  /** The whole loop over the aborted transactions, in order. */
  function Reorder(p: Plan, txs: seq<AbortedTx>): Plan
    requires |p.epochMap| <= |p.schedules|
    decreases |txs|
  {
    if txs == [] then p else Reorder(Place(p, txs[0]), txs[1..])
  }

  /** The transactions of all epochs, epoch after epoch. */
  function Flatten(s: seq<seq<OptTx>>): seq<OptTx> {
    if s == [] then [] else s[0] + Flatten(s[1..])
  }

  lemma {:induction false} FlattenAppend(s: seq<seq<OptTx>>, e: nat, x: OptTx)
    requires e < |s|
    ensures multiset(Flatten(s[e := s[e] + [x]])) == multiset(Flatten(s)) + multiset{x}
    decreases |s|
  {
    if e > 0 {
      FlattenAppend(s[1..], e - 1, x);
      assert s[e := s[e] + [x]][1..] == s[1..][e - 1 := s[1..][e - 1] + [x]];
    } else {
      assert s[e := s[e] + [x]][1..] == s[1..];
    }
  }

  lemma {:induction false} FlattenPadEmpty(s: seq<seq<OptTx>>, n: nat)
    ensures Flatten(s + seq(n, _ => [])) == Flatten(s)
    decreases |s|, n
  {
    if s == [] {
      if n > 0 {
        var pad: seq<seq<OptTx>> := seq(n, _ => []);
        assert s + pad == pad && pad[0] == [];
        assert pad[1..] == [] + seq(n - 1, _ => []);
        FlattenPadEmpty([], n - 1);
      }
    } else {
      assert (s + seq(n, _ => []))[1..] == s[1..] + seq(n, _ => []);
      FlattenPadEmpty(s[1..], n);
    }
  }

  /** The loop keeps `schedules` as long as `epoch_map`, starting from two
      vectors of equal length (the caller passes two empty ones). */
  lemma {:induction false} ReorderKeepsLengths(p: Plan, txs: seq<AbortedTx>)
    requires |p.schedules| == |p.epochMap|
    ensures |Reorder(p, txs).schedules| == |Reorder(p, txs).epochMap| >= |p.epochMap|
    decreases |txs|
  {
    if txs != [] {
      var q := Place(p, txs[0]);
      ReorderKeepsLengths(q, txs[1..]);
    }
  }

  /** The transactions of a list of aborted ones, in order. */
  function TxsOf(txs: seq<AbortedTx>): (r: seq<OptTx>)
    ensures |r| == |txs|
  {
    if txs == [] then [] else [txs[0].tx] + TxsOf(txs[1..])
  }

  /** One placement schedules exactly the placed transaction. */
  lemma PlaceAddsOne(p: Plan, t: AbortedTx)
    requires |p.schedules| == |p.epochMap|
    ensures multiset(Flatten(Place(p, t).schedules)) == multiset(Flatten(p.schedules)) + multiset{t.tx}
  {
    var e := EpochOf(p.epochMap, t);
    var sc := if e >= |p.epochMap| then Resize(p.schedules, e + 1, []) else p.schedules;
    if e >= |p.epochMap| {
      assert sc == p.schedules + seq(1, _ => []);
      FlattenPadEmpty(p.schedules, 1);
    }
    FlattenAppend(sc, e, t.tx);
  }

  /** Every aborted transaction is put into exactly one schedule, and nothing
      already scheduled is lost. */
  lemma {:induction false} ReorderPlacesEachOnce(p: Plan, txs: seq<AbortedTx>)
    requires |p.schedules| == |p.epochMap|
    ensures multiset(Flatten(Reorder(p, txs).schedules)) == multiset(Flatten(p.schedules)) + multiset(TxsOf(txs))
    decreases |txs|
  {
    if txs != [] {
      PlaceAddsOne(p, txs[0]);
      ReorderPlacesEachOnce(Place(p, txs[0]), txs[1..]);
    }
  }

  /** Schedules are only appended to, so transactions placed in the same epoch
      keep their input order. */
  lemma {:induction false} ReorderOnlyAppends(p: Plan, txs: seq<AbortedTx>, i: nat)
    requires |p.schedules| == |p.epochMap| && i < |p.schedules|
    ensures i < |Reorder(p, txs).schedules|
    ensures p.schedules[i] <= Reorder(p, txs).schedules[i]
    decreases |txs|
  {
    if txs != [] {
      var q := Place(p, txs[0]);
      ReorderOnlyAppends(q, txs[1..], i);
    }
  }

  /** OptME::InterEpochReordering: for each aborted transaction in order, walk
      the epochs while it passes them, open a new epoch when it passes all,
      and schedule it there. */
  method InterEpochReordering(schedules: seq<seq<OptTx>>, abortedTxs: seq<AbortedTx>)
    returns (result: seq<seq<OptTx>>)
    ensures result == Reorder(Plan(schedules, []), abortedTxs).schedules
  {
    var sc := schedules;
    var epochMap: seq<set<string>> := [];
    for n := 0 to |abortedTxs|
      invariant |epochMap| <= |sc|
      invariant Reorder(Plan(sc, epochMap), abortedTxs[n..]) == Reorder(Plan(schedules, []), abortedTxs)
    {
      assert abortedTxs[n..][1..] == abortedTxs[n + 1..];
      sc, epochMap := PlaceAborted(sc, epochMap, abortedTxs[n]);
    }
    assert abortedTxs[|abortedTxs|..] == [];
    result := sc;
  }

  /** One turn of the loop: walk the epochs while the transaction passes
      them, open a new epoch when it passes all, and schedule it there. */
  method PlaceAborted(sc: seq<seq<OptTx>>, epochMap: seq<set<string>>, t: AbortedTx)
    returns (sc': seq<seq<OptTx>>, epochMap': seq<set<string>>)
    requires |epochMap| <= |sc|
    ensures Plan(sc', epochMap') == Place(Plan(sc, epochMap), t)
  {
    var epoch := FindEpoch(epochMap, t);
    sc', epochMap' := sc, epochMap;
    if epoch >= |epochMap'| {
      epochMap' := Resize(epochMap', epoch + 1, {});
      sc' := Resize(sc', epoch + 1, []);
    }
    sc' := sc'[epoch := sc'[epoch] + [t.tx]];
    epochMap' := epochMap'[epoch := epochMap'[epoch] + t.putKeys];
  }

  /** The inner loop: the first epoch the transaction does not pass. */
  method FindEpoch(epochMap: seq<set<string>>, t: AbortedTx) returns (epoch: nat)
    ensures epoch == EpochOf(epochMap, t)
  {
    epoch := 0;
    while epoch < |epochMap|
      invariant 0 <= epoch <= |epochMap|
      invariant EpochFrom(epochMap, t, epoch) == EpochOf(epochMap, t)
      decreases |epochMap| - epoch
    {
      var inGet := SetOps.HasContain(t.getKeys, epochMap[epoch]);
      var inPut := SetOps.HasContain(t.putKeys, epochMap[epoch]);
      if !(inGet || inPut) {
        break;
      }
      epoch := epoch + 1;
    }
  }
}
