/** AriaER's reservation tables (protocol/ariaer/AriaER.cpp).  Within a batch
    every key remembers the smallest-id transaction that reserved a read of it
    and the smallest-id one that reserved a write; a transaction then verifies
    against those reservations, and one that fails falls back to a pessimistic
    re-execution that waits on its latest earlier dependency, found in a second
    (lock) table. */
module AriaER {
  import opened Wrappers

  /** A transaction as the tables see it: its id and its batch id.  Batch ids
      start at 1; 0 in a slot means "never reserved".  Transaction pointers are
      modelled by ids. */
  datatype AriaTx = AriaTx(id: nat, batchId: nat)

  /** One reservation: the batch it belongs to and the id of the reserving
      transaction (None for a null pointer). */
  datatype Slot = Slot(batchId: nat, holder: Option<nat>)

  /** AriaEREntry: a read slot and a write slot (the value column is not
      modelled). */
  datatype Entry = Entry(get: Slot, put: Slot)

  /** A default-constructed entry. */
  const Empty: Entry := Entry(Slot(0, None), Slot(0, None))

  /** Every reservation sets the batch and the holder together, so a slot
      names a batch exactly when it has a holder. */
  predicate ValidSlot(s: Slot) {
    s.batchId == 0 <==> s.holder.None?
  }

  predicate ValidEntry(e: Entry) {
    ValidSlot(e.get) && ValidSlot(e.put)
  }

  function Min(a: nat, b: nat): nat {
    if a <= b then a else b
  }

  /** The reservation rule shared by ReserveGet and ReservePut: `tx` takes the
      slot when it belongs to another batch, is empty, or is held by a larger
      id; so the slot ends up held by the smaller of the old holder of the same
      batch and `tx`. */
  function Reserve(s: Slot, tx: AriaTx): (r: Slot)
    ensures r.batchId == tx.batchId
    ensures r.holder == Some(if s.batchId == tx.batchId && s.holder.Some? then Min(s.holder.value, tx.id) else tx.id)
  {
    if s.batchId != tx.batchId || s.holder.None? || s.holder.value > tx.id then Slot(tx.batchId, Some(tx.id))
    else s
  }

  /** AriaERTable::ReserveGet on one entry. */
  function ReserveGet(e: Entry, tx: AriaTx): (r: Entry)
    ensures r.put == e.put && r.get == Reserve(e.get, tx)
  {
    e.(get := Reserve(e.get, tx))
  }

  /** AriaERTable::ReservePut on one entry. */
  function ReservePut(e: Entry, tx: AriaTx): (r: Entry)
    ensures r.get == e.get && r.put == Reserve(e.put, tx)
  {
    e.(put := Reserve(e.put, tx))
  }

  /** ReservePutAgain reads abortList[holder] only when the batch matches, the
      holder is set and not larger than `tx`; the index must then be in range
      (vector::operator[] does not check it). */
  predicate AgainReadable(e: Entry, tx: AriaTx, abortList: seq<bool>) {
    e.put.batchId == tx.batchId && e.put.holder.Some? && e.put.holder.value <= tx.id ==>
      e.put.holder.value < |abortList|
  }

  /** AriaERTable::ReservePutAgain on one entry: ReservePut, except that a
      holder marked in abortList is replaced too. */
  function ReservePutAgain(e: Entry, tx: AriaTx, abortList: seq<bool>): (r: Entry)
    requires AgainReadable(e, tx, abortList)
    ensures r.get == e.get
    ensures r == if e.put.batchId == tx.batchId && e.put.holder.Some? && e.put.holder.value <= tx.id
                    && abortList[e.put.holder.value]
                 then e.(put := Slot(tx.batchId, Some(tx.id)))
                 else ReservePut(e, tx)
  {
    var s := e.put;
    if s.batchId != tx.batchId || s.holder.None? || s.holder.value > tx.id || abortList[s.holder.value] then
      e.(put := Slot(tx.batchId, Some(tx.id)))
    else e
  }

  /** AriaERTable::CompareReservedGet on one entry: `tx` keeps its read
      reservation when the slot belongs to another batch, is empty, or is held
      by `tx` itself. */
  predicate CompareReservedGet(e: Entry, tx: AriaTx) {
    e.get.batchId != tx.batchId || e.get.holder.None? || e.get.holder.value == tx.id
  }

  /** CompareReservedPut dereferences the holder and reads abortList.at(holder)
      as soon as the batch matches: the holder must be set and the index in
      range (a null holder is undefined behaviour, a bad index throws). */
  predicate PutComparable(e: Entry, tx: AriaTx, abortList: seq<bool>) {
    e.put.batchId == tx.batchId ==> e.put.holder.Some? && e.put.holder.value < |abortList|
  }

  /** AriaERTable::CompareReservedPut on one entry: as CompareReservedGet on the
      write slot, and a holder marked in abortList does not count. */
  predicate CompareReservedPut(e: Entry, tx: AriaTx, abortList: seq<bool>)
    requires PutComparable(e, tx, abortList)
  {
    e.put.batchId != tx.batchId || abortList[e.put.holder.value] || e.put.holder.None? || e.put.holder.value == tx.id
  }

  /** In a valid entry a matching batch always has a holder, so the undefined
      null dereference of CompareReservedPut cannot happen. */
  lemma ValidEntryHasHolder(e: Entry, tx: AriaTx)
    requires ValidEntry(e) && tx.batchId >= 1 && e.put.batchId == tx.batchId
    ensures e.put.holder.Some?
  {
  }

  /** Reserving keeps slots valid. */
  lemma ReserveKeepsValid(e: Entry, tx: AriaTx, abortList: seq<bool>)
    requires ValidEntry(e) && tx.batchId >= 1
    ensures ValidEntry(ReserveGet(e, tx)) && ValidEntry(ReservePut(e, tx))
    ensures AgainReadable(e, tx, abortList) ==> ValidEntry(ReservePutAgain(e, tx, abortList))
  {
  }

  /** Right after `tx` reserves a read, it still holds it unless a smaller id
      of its batch got there first. */
  lemma ReserveGetThenCompare(e: Entry, tx: AriaTx)
    ensures CompareReservedGet(ReserveGet(e, tx), tx) <==>
      !(e.get.batchId == tx.batchId && e.get.holder.Some? && e.get.holder.value < tx.id)
  {
  }

  /** The smallest id of a non-empty list of transactions. */
  function MinId(txs: seq<AriaTx>): (m: nat)
    requires txs != []
    ensures exists i :: 0 <= i < |txs| && txs[i].id == m
    ensures forall i :: 0 <= i < |txs| ==> m <= txs[i].id
  {
    if |txs| == 1 then txs[0].id else Min(txs[0].id, MinId(txs[1..]))
  }

  /** A slot after `txs` reserved it, in order. */
  function ReserveAll(s: Slot, txs: seq<AriaTx>): Slot
    decreases |txs|
  {
    if txs == [] then s else ReserveAll(Reserve(s, txs[0]), txs[1..])
  }

  /** Whatever the order of a batch's reservations, the slot ends up held by
      the smallest id among them and any earlier holder of the same batch. */
  lemma {:induction false} ReserveAllKeepsMinimum(s: Slot, txs: seq<AriaTx>, b: nat)
    requires txs != [] && forall i :: 0 <= i < |txs| ==> txs[i].batchId == b
    ensures ReserveAll(s, txs).batchId == b
    ensures ReserveAll(s, txs).holder ==
      Some(if s.batchId == b && s.holder.Some? then Min(s.holder.value, MinId(txs)) else MinId(txs))
    decreases |txs|
  {
    var s1 := Reserve(s, txs[0]);
    if |txs| > 1 {
      ReserveAllKeepsMinimum(s1, txs[1..], b);
    }
  }

  /** So once a fresh batch has reserved a key, among transactions with
      distinct ids exactly the smallest one passes CompareReservedGet. */
  lemma {:induction false} OnlySmallestKeepsRead(e: Entry, txs: seq<AriaTx>, b: nat, t: AriaTx)
    requires txs != [] && forall i :: 0 <= i < |txs| ==> txs[i].batchId == b
    requires e.get.batchId != b && t in txs
    ensures CompareReservedGet(e.(get := ReserveAll(e.get, txs)), t) <==> t.id == MinId(txs)
  {
    ReserveAllKeepsMinimum(e.get, txs, b);
  }

  /** The reservation table of the first, optimistic round. */
  class Table {
    var entries: map<string, Entry>

    ghost predicate Valid()
      reads this
    {
      forall k :: k in entries ==> ValidEntry(entries[k])
    }

    /** The entry of a key; a missing one reads as a default entry. */
    function Get(k: string): Entry
      reads this
    {
      if k in entries then entries[k] else Empty
    }

    constructor ()
      ensures Valid() && entries == map[]
    {
      entries := map[];
    }

    /** AriaERTable::ReserveGet. */
    method ReserveGetKey(tx: AriaTx, k: string)
      requires Valid() && tx.batchId >= 1
      modifies this
      ensures Valid() && entries == old(entries)[k := ReserveGet(old(Get(k)), tx)]
    {
      var e := Get(k);
      if e.get.batchId != tx.batchId || e.get.holder.None? || e.get.holder.value > tx.id {
        e := e.(get := Slot(tx.batchId, Some(tx.id)));
      }
      entries := entries[k := e];
    }

    /** AriaERTable::ReservePut. */
    method ReservePutKey(tx: AriaTx, k: string)
      requires Valid() && tx.batchId >= 1
      modifies this
      ensures Valid() && entries == old(entries)[k := ReservePut(old(Get(k)), tx)]
    {
      var e := Get(k);
      if e.put.batchId != tx.batchId || e.put.holder.None? || e.put.holder.value > tx.id {
        e := e.(put := Slot(tx.batchId, Some(tx.id)));
      }
      entries := entries[k := e];
    }

    /** AriaERTable::ReservePutAgain. */
    method ReservePutAgainKey(tx: AriaTx, k: string, abortList: seq<bool>)
      requires Valid() && tx.batchId >= 1 && AgainReadable(Get(k), tx, abortList)
      modifies this
      ensures Valid() && entries == old(entries)[k := ReservePutAgain(old(Get(k)), tx, abortList)]
    {
      var e := Get(k);
      if e.put.batchId != tx.batchId || e.put.holder.None? || e.put.holder.value > tx.id || abortList[e.put.holder.value] {
        e := e.(put := Slot(tx.batchId, Some(tx.id)));
      }
      entries := entries[k := e];
    }

    /** Every key of `keys` can be compared for a write reservation. */
    predicate Comparable(tx: AriaTx, keys: set<string>, abortList: seq<bool>)
      reads this
    {
      forall k :: k in keys ==> PutComparable(Get(k), tx, abortList)
    }

    /** Some key of `keys` has its write reservation held by another live
        transaction of the batch. */
    predicate PutLost(tx: AriaTx, keys: set<string>, abortList: seq<bool>)
      requires Comparable(tx, keys, abortList)
      reads this
    {
      exists k :: k in keys && !CompareReservedPut(Get(k), tx, abortList)
    }

    /** Some key of `keys` has its read reservation held by another
        transaction of the batch. */
    predicate GetLost(tx: AriaTx, keys: set<string>)
      reads this
    {
      exists k :: k in keys && !CompareReservedGet(Get(k), tx)
    }
  }

  /** One of Verify's loops over write reservations: whether some key fails
      CompareReservedPut. */
  method AnyPutLost(t: Table, tx: AriaTx, keys: set<string>, abortList: seq<bool>) returns (lost: bool)
    requires t.Comparable(tx, keys, abortList)
    ensures lost == t.PutLost(tx, keys, abortList)
  {
    lost := false;
    var rest := keys;
    while rest != {}
      invariant rest <= keys
      invariant lost <==> exists k :: k in keys - rest && !CompareReservedPut(t.Get(k), tx, abortList)
      decreases rest
    {
      var k :| k in rest;
      lost := lost || !CompareReservedPut(t.Get(k), tx, abortList);
      rest := rest - {k};
    }
  }

  /** Verify's loop over read reservations of the write keys. */
  method AnyGetLost(t: Table, tx: AriaTx, keys: set<string>) returns (lost: bool)
    ensures lost == t.GetLost(tx, keys)
  {
    lost := false;
    var rest := keys;
    while rest != {}
      invariant rest <= keys
      invariant lost <==> exists k :: k in keys - rest && !CompareReservedGet(t.Get(k), tx)
      decreases rest
    {
      var k :| k in rest;
      lost := lost || !CompareReservedGet(t.Get(k), tx);
      rest := rest - {k};
    }
  }

  /** AriaERExecutor::Verify: a read-after-write hazard on a read key, a
      write-after-read hazard on a write key, and a write-after-write hazard on
      a write key; with reordering a transaction aborts on write-after-write or
      on both of the other two, without it on write-after-write or
      read-after-write. */
  method Verify(t: Table, tx: AriaTx, getKeys: set<string>, putKeys: set<string>,
                abortList: seq<bool>, enableReordering: bool)
    returns (conflict: bool)
    requires t.Comparable(tx, getKeys, abortList) && t.Comparable(tx, putKeys, abortList)
    ensures conflict <==>
      t.PutLost(tx, putKeys, abortList) ||
      (t.PutLost(tx, getKeys, abortList) && (!enableReordering || t.GetLost(tx, putKeys)))
  {
    var raw := AnyPutLost(t, tx, getKeys, abortList);
    var war := AnyGetLost(t, tx, putKeys);
    var waw := AnyPutLost(t, tx, putKeys, abortList);
    if enableReordering {
      conflict := waw || (raw && war);
    } else {
      conflict := waw || raw;
    }
  }

  /** AriaERExecutor::VerifyWrite: only the write-after-write check. */
  method VerifyWrite(t: Table, tx: AriaTx, putKeys: set<string>, abortList: seq<bool>)
    returns (conflict: bool)
    requires t.Comparable(tx, putKeys, abortList)
    ensures conflict <==> t.PutLost(tx, putKeys, abortList)
  {
    conflict := AnyPutLost(t, tx, putKeys, abortList);
  }

  /** The ids of a list. */
  function Elems(s: seq<nat>): set<nat> {
    set x | x in s
  }

  /** `w` is the dependency to wait on among `cands`: the largest id below
      `bound`, or None when there is none. */
  predicate IsWaitTarget(w: Option<nat>, cands: set<nat>, bound: nat) {
    (w.None? <==> forall x :: x in cands ==> x >= bound) &&
    (w.Some? ==> w.value in cands && w.value < bound && forall x :: x in cands && x < bound ==> x <= w.value)
  }

  /** A wait target is unique: it does not depend on the order the
      dependencies are visited in. */
  lemma WaitTargetUnique(w1: Option<nat>, w2: Option<nat>, cands: set<nat>, bound: nat)
    requires IsWaitTarget(w1, cands, bound) && IsWaitTarget(w2, cands, bound)
    ensures w1 == w2
  {
  }

  /** The lock table of the fallback round: for every key the transactions
      (by id) that failed verification and read or wrote it. */
  class LockTable {
    var depsGet: map<string, seq<nat>>
    var depsPut: map<string, seq<nat>>

    function DepsGet(k: string): seq<nat>
      reads this
    {
      if k in depsGet then depsGet[k] else []
    }

    function DepsPut(k: string): seq<nat>
      reads this
    {
      if k in depsPut then depsPut[k] else []
    }

    /** AriaERLockTable's constructor. */
    constructor ()
      ensures depsGet == map[] && depsPut == map[]
    {
      depsGet := map[];
      depsPut := map[];
    }

    /** The ids a key contributes to the wait choice: its writers, and also
        its readers when the transaction writes the key. */
    function KeyDeps(k: string, withGets: bool): set<nat>
      reads this
    {
      (if withGets then Elems(DepsGet(k)) else {}) + Elems(DepsPut(k))
    }

    function Cands(keys: set<string>, withGets: bool): set<nat>
      reads this
    {
      set k, x | k in keys && x in KeyDeps(k, withGets) :: x
    }

    /** Every dependency the fallback of a transaction looks at: readers and
        writers of its write keys, writers of its read keys. */
    function WaitCandidates(getKeys: set<string>, putKeys: set<string>): set<nat>
      reads this
    {
      Cands(putKeys, true) + Cands(getKeys, false)
    }

    lemma CandsAdd(keys: set<string>, k: string, withGets: bool)
      ensures Cands(keys + {k}, withGets) == Cands(keys, withGets) + KeyDeps(k, withGets)
      ensures forall seen: set<nat> {:trigger seen + Cands(keys + {k}, withGets)} ::
        seen + Cands(keys + {k}, withGets) == seen + Cands(keys, withGets) + KeyDeps(k, withGets)
    {
      forall x | x in KeyDeps(k, withGets) ensures x in Cands(keys + {k}, withGets) {
        assert k in keys + {k};
      }
    }

    /** PrepareLockTable's loop over the read keys. */
    method AddReader(id: nat, keys: set<string>)
      modifies this
      ensures depsPut == old(depsPut)
      ensures forall k :: DepsGet(k) == if k in keys then old(DepsGet(k)) + [id] else old(DepsGet(k))
    {
      var rest := keys;
      while rest != {}
        invariant rest <= keys && depsPut == old(depsPut)
        invariant forall k :: DepsGet(k) == if k in keys - rest then old(DepsGet(k)) + [id] else old(DepsGet(k))
        decreases rest
      {
        var k :| k in rest;
        depsGet := depsGet[k := DepsGet(k) + [id]];
        rest := rest - {k};
      }
    }

    /** PrepareLockTable's loop over the write keys. */
    method AddWriter(id: nat, keys: set<string>)
      modifies this
      ensures depsGet == old(depsGet)
      ensures forall k :: DepsPut(k) == if k in keys then old(DepsPut(k)) + [id] else old(DepsPut(k))
    {
      var rest := keys;
      while rest != {}
        invariant rest <= keys && depsGet == old(depsGet)
        invariant forall k :: DepsPut(k) == if k in keys - rest then old(DepsPut(k)) + [id] else old(DepsPut(k))
        decreases rest
      {
        var k :| k in rest;
        depsPut := depsPut[k := DepsPut(k) + [id]];
        rest := rest - {k};
      }
    }

    /** AriaERExecutor::PrepareLockTable: a failed transaction registers as a
        reader of its read keys and a writer of its write keys. */
    method PrepareLockTable(id: nat, getKeys: set<string>, putKeys: set<string>)
      modifies this
      ensures forall k :: DepsGet(k) == if k in getKeys then old(DepsGet(k)) + [id] else old(DepsGet(k))
      ensures forall k :: DepsPut(k) == if k in putKeys then old(DepsPut(k)) + [id] else old(DepsPut(k))
    {
      AddReader(id, getKeys);
      AddWriter(id, putKeys);
    }

    /** AriaERExecutor::CleanLockTable: the writer lists of the write keys and
        the reader lists of the read keys are emptied. */
    method CleanLockTable(getKeys: set<string>, putKeys: set<string>)
      modifies this
      ensures forall k :: DepsGet(k) == if k in getKeys then [] else old(DepsGet(k))
      ensures forall k :: DepsPut(k) == if k in putKeys then [] else old(DepsPut(k))
    {
      var rest := putKeys;
      while rest != {}
        invariant rest <= putKeys && depsGet == old(depsGet)
        invariant forall k :: DepsPut(k) == if k in putKeys - rest then [] else old(DepsPut(k))
        decreases rest
      {
        var k :| k in rest;
        depsPut := depsPut[k := []];
        rest := rest - {k};
      }
      ClearReaders(getKeys);
    }

    method ClearReaders(keys: set<string>)
      modifies this
      ensures depsPut == old(depsPut)
      ensures forall k :: DepsGet(k) == if k in keys then [] else old(DepsGet(k))
    {
      var rest := keys;
      while rest != {}
        invariant rest <= keys && depsPut == old(depsPut)
        invariant forall k :: DepsGet(k) == if k in keys - rest then [] else old(DepsGet(k))
        decreases rest
      {
        var k :| k in rest;
        depsGet := depsGet[k := []];
        rest := rest - {k};
      }
    }
  }

  /** One scan of a dependency list in Fallback: keeps the largest id below
      `bound` seen so far. */
  method ScanBelow(ids: seq<nat>, bound: nat, cur: Option<nat>, ghost seen: set<nat>) returns (w: Option<nat>)
    requires IsWaitTarget(cur, seen, bound)
    ensures IsWaitTarget(w, seen + Elems(ids), bound)
  {
    w := cur;
    var i := 0;
    while i < |ids|
      invariant 0 <= i <= |ids|
      invariant IsWaitTarget(w, seen + Elems(ids[..i]), bound)
    {
      assert Elems(ids[..i + 1]) == Elems(ids[..i]) + {ids[i]} by {
        assert ids[..i + 1] == ids[..i] + [ids[i]];
      }
      if ids[i] < bound && (w.None? || ids[i] > w.value) {
        w := Some(ids[i]);
      }
      i := i + 1;
    }
    assert ids[..i] == ids;
  }

  /** Fallback's scan over the dependencies of one key: its readers first
      when `withGets`, then its writers. */
  method ScanKey(lt: LockTable, k: string, withGets: bool, bound: nat, cur: Option<nat>, ghost seen: set<nat>)
    returns (w: Option<nat>)
    requires IsWaitTarget(cur, seen, bound)
    ensures IsWaitTarget(w, seen + lt.KeyDeps(k, withGets), bound)
  {
    w := cur;
    ghost var mid := seen + (if withGets then Elems(lt.DepsGet(k)) else {});
    if withGets {
      w := ScanBelow(lt.DepsGet(k), bound, w, seen);
    } else {
      assert mid == seen;
    }
    w := ScanBelow(lt.DepsPut(k), bound, w, mid);
    assert mid + Elems(lt.DepsPut(k)) == seen + lt.KeyDeps(k, withGets);
  }

  /** Moving one element from the pending part to the done part. */
  lemma TakeOne<T>(all: set<T>, rest: set<T>, k: T)
    requires k in rest && rest <= all
    ensures all - (rest - {k}) == (all - rest) + {k}
  {
  }

  /** Fallback's scan over one group of keys. */
  method ScanKeys(lt: LockTable, keys: set<string>, withGets: bool, bound: nat,
                  cur: Option<nat>, ghost seen: set<nat>) returns (w: Option<nat>)
    requires IsWaitTarget(cur, seen, bound)
    ensures IsWaitTarget(w, seen + lt.Cands(keys, withGets), bound)
  {
    w := cur;
    var rest := keys;
    while rest != {}
      invariant rest <= keys
      invariant IsWaitTarget(w, seen + lt.Cands(keys - rest, withGets), bound)
      decreases rest
    {
      var k :| k in rest;
      ghost var done := keys - rest;
      w := ScanKey(lt, k, withGets, bound, w, seen + lt.Cands(done, withGets));
      lt.CandsAdd(done, k, withGets);
      TakeOne(keys, rest, k);
      rest := rest - {k};
    }
    assert keys - rest == keys;
  }

  /** The wait choice of AriaERExecutor::Fallback: among the readers and
      writers of its write keys and the writers of its read keys, the
      dependency with the largest id below the transaction's, or none. */
  method ChooseWait(lt: LockTable, tx: AriaTx, getKeys: set<string>, putKeys: set<string>)
    returns (shouldWait: Option<nat>)
    ensures IsWaitTarget(shouldWait, lt.WaitCandidates(getKeys, putKeys), tx.id)
  {
    shouldWait := ScanKeys(lt, putKeys, true, tx.id, None, {});
    assert {} + lt.Cands(putKeys, true) == lt.Cands(putKeys, true);
    shouldWait := ScanKeys(lt, getKeys, false, tx.id, shouldWait, lt.Cands(putKeys, true));
    assert lt.WaitCandidates(getKeys, putKeys) == lt.Cands(putKeys, true) + lt.Cands(getKeys, false);
  }
}
