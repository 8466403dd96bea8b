/** Loom's per-key reservation table (protocol/loom/Loom.cpp).  Every key has
    an entry recording which block reserved reads of it (and which of that
    block's transactions did), and which block reserved writes of it with how
    many writes are pending for that block and for later blocks.  A
    transaction reserves its reads and writes while it pre-executes, and
    releases them in Finalize. */
module LoomTable {

  /** A transaction as the table sees it: its id and its block id.  Block ids
      start at 1; 0 in an entry means "no block". */
  datatype LoomTx = LoomTx(id: nat, blockId: nat)

  /** LoomEntry (the value column is not modelled). */
  datatype Entry = Entry(
    blockIdGet: nat, reservedGetTxs: set<LoomTx>,
    blockIdPut: nat, reservedPutNum: nat, nextReservedPut: nat)

  /** A default-constructed entry: nothing reserved. */
  const Empty: Entry := Entry(0, {}, 0, 0, 0)

  /** What the operations keep true of every entry: a read block is recorded
      exactly when some of its transactions hold a read reservation; a write
      block is recorded exactly when it has a pending write, and no later
      writes are pending without one. */
  predicate ValidEntry(e: Entry) {
    (e.blockIdGet == 0 <==> e.reservedGetTxs == {}) &&
    (forall t :: t in e.reservedGetTxs ==> t.blockId == e.blockIdGet) &&
    (e.blockIdPut == 0 ==> e.reservedPutNum == 0 && e.nextReservedPut == 0) &&
    (e.blockIdPut != 0 ==> e.reservedPutNum >= 1)
  }

  /** ReserveGet on one entry, giving the new entry and whether `tx` is aborted.
      A write reserved by an older block (a write-after-read hazard) aborts the
      read and leaves the entry alone; otherwise a newer block takes the read
      reservation over, the same block joins it and an older one is ignored. */
  function ReserveGet(e: Entry, tx: LoomTx): (r: (Entry, bool))
    ensures r.1 <==> e.blockIdPut != 0 && e.blockIdPut < tx.blockId
    ensures r.1 ==> r.0 == e
    ensures !r.1 ==> r.0.blockIdGet == (if e.blockIdGet < tx.blockId then tx.blockId else e.blockIdGet)
    ensures ValidEntry(e) && !r.1 ==> (tx in r.0.reservedGetTxs <==> e.blockIdGet <= tx.blockId)
    ensures !r.1 && e.blockIdGet < tx.blockId ==> r.0.reservedGetTxs == {tx}
    ensures !r.1 && e.blockIdGet == tx.blockId ==> r.0.reservedGetTxs == e.reservedGetTxs + {tx}
    ensures !r.1 && e.blockIdGet > tx.blockId ==> r.0 == e
    ensures (r.0.blockIdPut, r.0.reservedPutNum, r.0.nextReservedPut) ==
            (e.blockIdPut, e.reservedPutNum, e.nextReservedPut)
    ensures ValidEntry(e) && tx.blockId >= 1 ==> ValidEntry(r.0)
  {
    if e.blockIdPut == 0 || e.blockIdPut >= tx.blockId then
      if e.blockIdGet < tx.blockId then (e.(blockIdGet := tx.blockId, reservedGetTxs := {tx}), false)
      else if e.blockIdGet == tx.blockId then (e.(reservedGetTxs := e.reservedGetTxs + {tx}), false)
      else (e, false)
    else (e, true)
  }

  /** The readers ReservePut aborts: every reserved reader when the read
      reservation belongs to a newer block than the writer's. */
  function PutVictims(e: Entry, tx: LoomTx): (victims: set<LoomTx>)
    ensures victims <= e.reservedGetTxs
    ensures ValidEntry(e) ==> forall t :: t in victims ==> t.blockId > tx.blockId
    ensures ValidEntry(e) ==> forall t :: t in e.reservedGetTxs && t.blockId > tx.blockId ==> t in victims
  {
    if e.blockIdGet > tx.blockId then e.reservedGetTxs else {}
  }

  /** ReservePut on one entry.  An empty entry takes the writer's block with one
      pending write; an older writer's block is pushed aside (its count becomes
      the "next" count); the same block adds a write; a newer block only adds
      to the "next" count.  The read reservation is left in place. */
  function ReservePut(e: Entry, tx: LoomTx): (r: Entry)
    ensures r.blockIdPut == (if e.blockIdPut == 0 || e.blockIdPut > tx.blockId then tx.blockId else e.blockIdPut)
    ensures (r.blockIdGet, r.reservedGetTxs) == (e.blockIdGet, e.reservedGetTxs)
    ensures e.blockIdPut == 0 ==> r.reservedPutNum == 1 && r.nextReservedPut == e.nextReservedPut
    ensures e.blockIdPut != 0 && e.blockIdPut == tx.blockId ==>
      r.reservedPutNum == e.reservedPutNum + 1 && r.nextReservedPut == e.nextReservedPut
    ensures e.blockIdPut > tx.blockId ==> r.reservedPutNum == 1 && r.nextReservedPut == e.reservedPutNum
    ensures e.blockIdPut != 0 && e.blockIdPut < tx.blockId ==>
      r.reservedPutNum == e.reservedPutNum && r.nextReservedPut == e.nextReservedPut + 1
    ensures ValidEntry(e) && tx.blockId >= 1 ==> ValidEntry(r)
  {
    if e.blockIdPut == 0 then e.(blockIdPut := tx.blockId, reservedPutNum := 1)
    else if e.blockIdPut > tx.blockId then
      e.(blockIdPut := tx.blockId, nextReservedPut := e.reservedPutNum, reservedPutNum := 1)
    else if e.blockIdPut == tx.blockId then e.(reservedPutNum := e.reservedPutNum + 1)
    else e.(nextReservedPut := e.nextReservedPut + 1)
  }

  /** Finalize on a key `tx` read: `tx` leaves the read reservation of its
      block, and the last one out clears the block. */
  function FinalizeGet(e: Entry, tx: LoomTx): (r: Entry)
    ensures ValidEntry(e) ==> tx !in r.reservedGetTxs
    ensures r.reservedGetTxs <= e.reservedGetTxs
    ensures e.blockIdGet != tx.blockId ==> r == e
    ensures (r.blockIdPut, r.reservedPutNum, r.nextReservedPut) ==
            (e.blockIdPut, e.reservedPutNum, e.nextReservedPut)
    ensures ValidEntry(e) ==> ValidEntry(r)
  {
    if e.blockIdGet == tx.blockId then
      var rest := e.reservedGetTxs - {tx};
      if rest == {} then e.(reservedGetTxs := rest, blockIdGet := 0)
      else e.(reservedGetTxs := rest)
    else e
  }

  /** Finalize on a key `tx` wrote: one pending write of its block is done; when
      none is left the reservation passes to the following block if later
      writes are pending, and is cleared otherwise. */
  function FinalizePut(e: Entry, tx: LoomTx): (r: Entry)
    requires ValidEntry(e) && tx.blockId >= 1
    ensures ValidEntry(r)
    ensures e.blockIdPut != tx.blockId ==> r == e
    ensures e.blockIdPut == tx.blockId && e.reservedPutNum > 1 ==>
      r == e.(reservedPutNum := e.reservedPutNum - 1)
    ensures e.blockIdPut == tx.blockId && e.reservedPutNum == 1 ==>
      if e.nextReservedPut > 0
      then r.blockIdPut == tx.blockId + 1 && r.reservedPutNum == e.nextReservedPut && r.nextReservedPut == 0
      else r.blockIdPut == 0 && r.reservedPutNum == 0
    ensures (r.blockIdGet, r.reservedGetTxs) == (e.blockIdGet, e.reservedGetTxs)
  {
    if e.blockIdPut == tx.blockId then
      var num := e.reservedPutNum - 1;
      if num == 0 then
        if e.nextReservedPut > 0 then
          e.(blockIdPut := e.blockIdPut + 1, reservedPutNum := e.nextReservedPut, nextReservedPut := 0)
        else e.(blockIdPut := 0, reservedPutNum := 0)
      else e.(reservedPutNum := num)
    else e
  }

  /** A read reserved and then finalized leaves no trace when `tx` was the only
      reader of its block or its block was already reading. */
  lemma ReserveGetThenFinalize(e: Entry, tx: LoomTx)
    requires ValidEntry(e) && tx.blockId >= 1 && tx !in e.reservedGetTxs
    requires e.blockIdGet == 0 || e.blockIdGet == tx.blockId
    requires e.blockIdPut == 0 || e.blockIdPut >= tx.blockId
    ensures FinalizeGet(ReserveGet(e, tx).0, tx) == e
  {
    var r := ReserveGet(e, tx).0;
    if e.blockIdGet == tx.blockId {
      assert r.reservedGetTxs - {tx} == e.reservedGetTxs;
    }
  }

  /** A write reserved and then finalized leaves no trace when the entry was
      free or already held by the writer's block. */
  lemma ReservePutThenFinalize(e: Entry, tx: LoomTx)
    requires ValidEntry(e) && tx.blockId >= 1
    requires e.blockIdPut == 0 || e.blockIdPut == tx.blockId
    ensures FinalizePut(ReservePut(e, tx), tx) == e
  {
  }

  /** When a block takes a write reservation over from the block right after
      it, finalizing its write hands the reservation back. */
  lemma PushedAsideBlockComesBack(e: Entry, tx: LoomTx)
    requires ValidEntry(e) && tx.blockId >= 1
    requires e.blockIdPut == tx.blockId + 1 && e.nextReservedPut == 0
    ensures FinalizePut(ReservePut(e, tx), tx) == e
  {
  }

  /** The entry of `k` in a table's map; a key never touched reads as `Empty`. */
  function At(m: map<string, Entry>, k: string): Entry {
    if k in m then m[k] else Empty
  }

  predicate ValidMap(m: map<string, Entry>) {
    forall k :: k in m ==> ValidEntry(m[k])
  }

  /** The read handler of pre-execution from the `i`-th read key on: each key
      is reserved in turn, and the handler stops right after the first key
      whose reservation finds `tx` aborted (`dead` says `tx` was aborted
      already).  Gives the new map, the number of keys recorded in local_get,
      and whether `tx` ended up aborted. */
  function ReadPass(m: map<string, Entry>, tx: LoomTx, ks: seq<string>, i: nat, dead: bool)
    : (r: (map<string, Entry>, nat, bool))
    requires i <= |ks|
    ensures i <= r.1 <= |ks|
    ensures !r.2 ==> r.1 == |ks|
    decreases |ks| - i
  {
    if i == |ks| then (m, i, dead)
    else
      var g := ReserveGet(At(m, ks[i]), tx);
      var m' := m[ks[i] := g.0];
      if g.1 || dead then (m', i, true)
      else ReadPass(m', tx, ks, i + 1, false)
  }

  /** The write handler of pre-execution from the `i`-th write key on: each
      key is write-reserved in turn.  Gives the new map and the readers the
      reservations abort. */
  function WritePass(m: map<string, Entry>, tx: LoomTx, ks: seq<string>, i: nat)
    : (map<string, Entry>, set<LoomTx>)
    requires i <= |ks|
    decreases |ks| - i
  {
    if i == |ks| then (m, {})
    else
      var e := At(m, ks[i]);
      var w := WritePass(m[ks[i] := ReservePut(e, tx)], tx, ks, i + 1);
      (w.0, w.1 + PutVictims(e, tx))
  }

  /** `e` holds a write reservation of a block older than `tx`'s: reading it
      would be a write-after-read hazard. */
  predicate OlderWrite(e: Entry, tx: LoomTx) {
    e.blockIdPut != 0 && e.blockIdPut < tx.blockId
  }

  /** `tx`'s read of `e` is covered: its block holds the read reservation with
      `tx` in it, or a newer block holds it. */
  predicate ReadCovered(e: Entry, tx: LoomTx) {
    e.blockIdGet > tx.blockId || (e.blockIdGet == tx.blockId && tx in e.reservedGetTxs)
  }

  /** `tx`'s write of `e` is covered: a block no newer than `tx`'s holds the
      write reservation. */
  predicate WriteCovered(e: Entry, tx: LoomTx) {
    1 <= e.blockIdPut <= tx.blockId
  }

  /** `k` is none of the keys `ks` from the `i`-th on. */
  predicate NotFrom(ks: seq<string>, i: nat, k: string) {
    forall j :: i <= j < |ks| ==> ks[j] != k
  }

  /** The read handler keeps every entry valid, leaves every write reservation
      alone and touches no key it does not read. */
  lemma {:induction false} ReadPassFrame(m: map<string, Entry>, tx: LoomTx, ks: seq<string>, i: nat, dead: bool)
    requires i <= |ks| && ValidMap(m) && tx.blockId >= 1
    ensures var m2 := ReadPass(m, tx, ks, i, dead).0;
      ValidMap(m2) &&
      (forall k :: At(m2, k).blockIdPut == At(m, k).blockIdPut) &&
      (forall k :: NotFrom(ks, i, k) ==> At(m2, k) == At(m, k))
    decreases |ks| - i
  {
    if i < |ks| {
      var g := ReserveGet(At(m, ks[i]), tx);
      var m' := m[ks[i] := g.0];
      assert ValidMap(m');
      if !(g.1 || dead) {
        ReadPassFrame(m', tx, ks, i + 1, false);
      }
    }
  }

  /** The read handler, from key `i` on, aborts `tx` exactly when some
      remaining read key holds an older block's write, and then it stops at
      the first such key. */
  lemma {:induction false} ReadPassAborts(m: map<string, Entry>, tx: LoomTx, ks: seq<string>, i: nat)
    requires i <= |ks| && ValidMap(m) && tx.blockId >= 1
    ensures var rp := ReadPass(m, tx, ks, i, false);
      (rp.2 <==> exists j :: i <= j < |ks| && OlderWrite(At(m, ks[j]), tx)) &&
      (rp.2 ==> i <= rp.1 < |ks| && OlderWrite(At(m, ks[rp.1]), tx) &&
                forall j :: i <= j < rp.1 ==> !OlderWrite(At(m, ks[j]), tx)) &&
      (!rp.2 ==> rp.1 == |ks|)
    decreases |ks| - i
  {
    if i < |ks| {
      var g := ReserveGet(At(m, ks[i]), tx);
      var m' := m[ks[i] := g.0];
      assert ValidMap(m');
      if !g.1 {
        ReadPassAborts(m', tx, ks, i + 1);
        assert forall k :: At(m', k).blockIdPut == At(m, k).blockIdPut;
        assert forall k :: OlderWrite(At(m', k), tx) == OlderWrite(At(m, k), tx);
      }
    }
  }

  /** A read reservation that covers `tx` stays covering when `tx` reserves
      the same key again. */
  lemma ReadCoveredStays(e: Entry, tx: LoomTx)
    requires ReadCovered(e, tx) && !ReserveGet(e, tx).1
    ensures ReadCovered(ReserveGet(e, tx).0, tx)
  {
  }

  /** When the read handler does not abort `tx`, every read key ends up
      covering `tx`'s read. */
  lemma {:induction false} ReadPassCovers(m: map<string, Entry>, tx: LoomTx, ks: seq<string>, i: nat)
    requires i <= |ks| && ValidMap(m) && tx.blockId >= 1
    requires forall j :: 0 <= j < i ==> ReadCovered(At(m, ks[j]), tx)
    ensures var rp := ReadPass(m, tx, ks, i, false);
      !rp.2 ==> forall j :: 0 <= j < |ks| ==> ReadCovered(At(rp.0, ks[j]), tx)
    decreases |ks| - i
  {
    if i < |ks| {
      var e := At(m, ks[i]);
      var g := ReserveGet(e, tx);
      var m' := m[ks[i] := g.0];
      assert ValidMap(m');
      if !g.1 {
        forall j | 0 <= j < i + 1
          ensures ReadCovered(At(m', ks[j]), tx)
        {
          if ks[j] == ks[i] {
            if j < i {
              ReadCoveredStays(e, tx);
            }
          } else {
            assert At(m', ks[j]) == At(m, ks[j]);
          }
        }
        ReadPassCovers(m', tx, ks, i + 1);
      }
    }
  }

  /** The write handler keeps every entry valid, leaves every read
      reservation alone and touches no key it does not write. */
  lemma {:induction false} WritePassFrame(m: map<string, Entry>, tx: LoomTx, ks: seq<string>, i: nat)
    requires i <= |ks| && ValidMap(m) && tx.blockId >= 1
    ensures var m2 := WritePass(m, tx, ks, i).0;
      ValidMap(m2) &&
      (forall k :: At(m2, k).blockIdGet == At(m, k).blockIdGet &&
                   At(m2, k).reservedGetTxs == At(m, k).reservedGetTxs) &&
      (forall k :: NotFrom(ks, i, k) ==> At(m2, k) == At(m, k))
    decreases |ks| - i
  {
    if i < |ks| {
      var m' := m[ks[i] := ReservePut(At(m, ks[i]), tx)];
      assert ValidMap(m');
      WritePassFrame(m', tx, ks, i + 1);
    }
  }

  /** A reader of a newer block than `tx`'s recorded on key `k`. */
  predicate LaterReader(e: Entry, tx: LoomTx, t: LoomTx) {
    t in e.reservedGetTxs && e.blockIdGet > tx.blockId
  }

  /** `t` reads, for a newer block than `tx`'s, one of the keys `ks` from the
      `i`-th on. */
  predicate LaterReaderFrom(m: map<string, Entry>, tx: LoomTx, ks: seq<string>, i: nat, t: LoomTx) {
    exists j :: i <= j < |ks| && LaterReader(At(m, ks[j]), tx, t)
  }

  /** The readers the write handler aborts, from key `i` on, are exactly the
      readers of a newer block recorded on the remaining write keys. */
  lemma {:induction false} WritePassVictims(m: map<string, Entry>, tx: LoomTx, ks: seq<string>, i: nat)
    requires i <= |ks| && ValidMap(m) && tx.blockId >= 1
    ensures forall t :: t in WritePass(m, tx, ks, i).1 <==> LaterReaderFrom(m, tx, ks, i, t)
    decreases |ks| - i
  {
    if i < |ks| {
      var e := At(m, ks[i]);
      var m' := m[ks[i] := ReservePut(e, tx)];
      assert ValidMap(m');
      WritePassVictims(m', tx, ks, i + 1);
      var w := WritePass(m', tx, ks, i + 1);
      assert WritePass(m, tx, ks, i).1 == w.1 + PutVictims(e, tx);
      forall t
        ensures t in w.1 + PutVictims(e, tx) <==> LaterReaderFrom(m, tx, ks, i, t)
      {
        if t in PutVictims(e, tx) {
          assert LaterReader(At(m, ks[i]), tx, t);
        } else if t in w.1 {
          var j :| i + 1 <= j < |ks| && LaterReader(At(m', ks[j]), tx, t);
          assert LaterReader(At(m, ks[j]), tx, t);
        }
        if LaterReaderFrom(m, tx, ks, i, t) {
          var j :| i <= j < |ks| && LaterReader(At(m, ks[j]), tx, t);
          if ks[j] != ks[i] {
            assert LaterReader(At(m', ks[j]), tx, t);
          }
        }
      }
    }
  }

  /** Every reader the write handler aborts belongs to a newer block than
      `tx`'s, so `tx` never aborts itself by writing. */
  lemma WritePassSparesWriter(m: map<string, Entry>, tx: LoomTx, ks: seq<string>, i: nat)
    requires i <= |ks| && ValidMap(m) && tx.blockId >= 1
    ensures forall t :: t in WritePass(m, tx, ks, i).1 ==> t.blockId > tx.blockId
  {
    WritePassVictims(m, tx, ks, i);
    forall t | t in WritePass(m, tx, ks, i).1
      ensures t.blockId > tx.blockId
    {
      var j :| i <= j < |ks| && LaterReader(At(m, ks[j]), tx, t);
    }
  }

  /** A write reservation that covers `tx` stays covering when `tx` reserves
      the same key again. */
  lemma WriteCoveredStays(e: Entry, tx: LoomTx)
    requires WriteCovered(e, tx)
    ensures WriteCovered(ReservePut(e, tx), tx)
  {
  }

  /** After the write handler every write key covers `tx`'s write. */
  lemma {:induction false} WritePassCovers(m: map<string, Entry>, tx: LoomTx, ks: seq<string>, i: nat)
    requires i <= |ks| && tx.blockId >= 1
    requires forall j :: 0 <= j < i ==> WriteCovered(At(m, ks[j]), tx)
    ensures forall j :: 0 <= j < |ks| ==> WriteCovered(At(WritePass(m, tx, ks, i).0, ks[j]), tx)
    decreases |ks| - i
  {
    if i < |ks| {
      var e := At(m, ks[i]);
      var m' := m[ks[i] := ReservePut(e, tx)];
      forall j | 0 <= j < i + 1
        ensures WriteCovered(At(m', ks[j]), tx)
      {
        if ks[j] == ks[i] {
          if j < i {
            WriteCoveredStays(e, tx);
          }
        } else {
          assert At(m', ks[j]) == At(m, ks[j]);
        }
      }
      WritePassCovers(m', tx, ks, i + 1);
    }
  }

  /** A transaction the handlers let through to its execution holds, at that
      point, a covering read reservation on every key it reads and a covering
      write reservation on every key it writes. */
  lemma ExecutedReservations(m: map<string, Entry>, tx: LoomTx, rs: seq<string>, ws: seq<string>)
    requires ValidMap(m) && tx.blockId >= 1
    requires !ReadPass(m, tx, rs, 0, false).2
    ensures var m2 := WritePass(ReadPass(m, tx, rs, 0, false).0, tx, ws, 0).0;
      (forall j :: 0 <= j < |rs| ==> ReadCovered(At(m2, rs[j]), tx)) &&
      (forall j :: 0 <= j < |ws| ==> WriteCovered(At(m2, ws[j]), tx))
  {
    var m1 := ReadPass(m, tx, rs, 0, false).0;
    var m2 := WritePass(m1, tx, ws, 0).0;
    ReadPassFrame(m, tx, rs, 0, false);
    ReadPassCovers(m, tx, rs, 0);
    WritePassFrame(m1, tx, ws, 0);
    WritePassCovers(m1, tx, ws, 0);
    forall j | 0 <= j < |rs|
      ensures ReadCovered(At(m2, rs[j]), tx)
    {
      assert ReadCovered(At(m1, rs[j]), tx);
      assert At(m2, rs[j]).blockIdGet == At(m1, rs[j]).blockIdGet;
      assert At(m2, rs[j]).reservedGetTxs == At(m1, rs[j]).reservedGetTxs;
    }
  }

  /** The table: the entries of the keys touched so far (a key never touched
      reads as `Empty`), and the transactions' abort and commit flags. */
  class Table {
    var entries: map<string, Entry>
    var aborted: set<LoomTx>
    var committed: set<LoomTx>

    ghost predicate Valid()
      reads this
    {
      forall k :: k in entries ==> ValidEntry(entries[k])
    }

    /** The entry of a key; `Table::Put` default-constructs a missing one. */
    function Get(k: string): Entry
      reads this
    {
      At(entries, k)
    }

    constructor ()
      ensures Valid() && entries == map[] && aborted == {} && committed == {}
    {
      entries := map[];
      aborted := {};
      committed := {};
    }

    /** LoomTable::ReserveGet. */
    method ReserveGetKey(tx: LoomTx, k: string)
      requires Valid() && tx.blockId >= 1
      modifies this
      ensures Valid()
      ensures entries == old(entries)[k := ReserveGet(old(Get(k)), tx).0]
      ensures aborted == if ReserveGet(old(Get(k)), tx).1 then old(aborted) + {tx} else old(aborted)
      ensures committed == old(committed)
    {
      var e := Get(k);
      if e.blockIdPut == 0 || e.blockIdPut >= tx.blockId {
        if e.blockIdGet < tx.blockId {
          e := e.(blockIdGet := tx.blockId, reservedGetTxs := {tx});
        } else if e.blockIdGet == tx.blockId {
          e := e.(reservedGetTxs := e.reservedGetTxs + {tx});
        }
      } else {
        aborted := aborted + {tx};
      }
      entries := entries[k := e];
    }

    /** LoomTable::ReservePut. */
    method ReservePutKey(tx: LoomTx, k: string)
      requires Valid() && tx.blockId >= 1
      modifies this
      ensures Valid()
      ensures entries == old(entries)[k := ReservePut(old(Get(k)), tx)]
      ensures aborted == old(aborted) + PutVictims(old(Get(k)), tx)
      ensures committed == old(committed)
    {
      var e := Get(k);
      if e.blockIdGet > tx.blockId {
        aborted := aborted + e.reservedGetTxs;
      }
      if e.blockIdPut == 0 {
        e := e.(blockIdPut := tx.blockId, reservedPutNum := 1);
      } else if e.blockIdPut > tx.blockId {
        e := e.(blockIdPut := tx.blockId, nextReservedPut := e.reservedPutNum, reservedPutNum := 1);
      } else if e.blockIdPut == tx.blockId {
        e := e.(reservedPutNum := e.reservedPutNum + 1);
      } else {
        e := e.(nextReservedPut := e.nextReservedPut + 1);
      }
      entries := entries[k := e];
    }

    /** The first loop of Loom::Finalize: every key of `keys` (the keys `tx`
        read) has its read reservation released. */
    method ReleaseGets(tx: LoomTx, keys: set<string>)
      requires Valid()
      modifies this
      ensures Valid() && committed == old(committed) && aborted == old(aborted)
      ensures forall k :: Get(k) == if k in keys then FinalizeGet(old(Get(k)), tx) else old(Get(k))
    {
      var rest := keys;
      while rest != {}
        invariant Valid() && rest <= keys
        invariant committed == old(committed) && aborted == old(aborted)
        invariant forall k :: Get(k) == if k in keys - rest then FinalizeGet(old(Get(k)), tx) else old(Get(k))
        decreases rest
      {
        var k :| k in rest;
        entries := entries[k := FinalizeGet(Get(k), tx)];
        rest := rest - {k};
      }
    }

    /** The second loop of Loom::Finalize: every key of `keys` (the keys `tx`
        wrote) has one pending write of `tx`'s block released. */
    method ReleasePuts(tx: LoomTx, keys: set<string>)
      requires Valid() && tx.blockId >= 1
      modifies this
      ensures Valid() && committed == old(committed) && aborted == old(aborted)
      ensures forall k :: Get(k) == if k in keys then FinalizePut(old(Get(k)), tx) else old(Get(k))
    {
      var rest := keys;
      while rest != {}
        invariant Valid() && rest <= keys
        invariant committed == old(committed) && aborted == old(aborted)
        invariant forall k :: Get(k) == if k in keys - rest then FinalizePut(old(Get(k)), tx) else old(Get(k))
        decreases rest
      {
        var k :| k in rest;
        entries := entries[k := FinalizePut(Get(k), tx)];
        rest := rest - {k};
      }
    }

    /** Loom::Finalize: marks `tx` committed and releases its read reservations,
        then its write reservations, key by key. */
    method Finalize(tx: LoomTx, localGet: set<string>, localPut: set<string>)
      requires Valid() && tx.blockId >= 1
      modifies this
      ensures Valid()
      ensures committed == old(committed) + {tx} && aborted == old(aborted)
      ensures forall k :: k !in localGet && k !in localPut ==> Get(k) == old(Get(k))
      ensures forall k :: k in localGet && k !in localPut ==> Get(k) == FinalizeGet(old(Get(k)), tx)
      ensures forall k :: k in localPut && k !in localGet ==> Get(k) == FinalizePut(old(Get(k)), tx)
      ensures forall k :: k in localGet && k in localPut ==>
        Get(k) == FinalizePut(FinalizeGet(old(Get(k)), tx), tx)
    {
      committed := committed + {tx};
      ReleaseGets(tx, localGet);
      ReleasePuts(tx, localPut);
    }

    /** LoomTransaction::Execute with the storage handlers pre-execution
        installs: every read key is reserved and then recorded in local_get
        unless `tx` has been aborted, which stops the handler; an aborted `tx`
        skips the write handler and the execution itself; otherwise every write
        key is reserved and recorded in local_put the same way.  `executed`
        says whether `loom::Exec` was reached.  The new entries and aborts are
        those of `ReadPass` and then `WritePass`. */
    method Execute(tx: LoomTx, readSet: seq<string>, writeSet: seq<string>)
      returns (localGet: set<string>, localPut: set<string>, executed: bool)
      requires Valid() && tx.blockId >= 1
      modifies this
      ensures Valid() && committed == old(committed)
      ensures executed <==> tx !in aborted
      ensures localGet <= set k | k in readSet && localPut <= set k | k in writeSet
      ensures localPut != {} ==> localGet == set k | k in readSet
      ensures executed ==> localGet == (set k | k in readSet) && localPut == (set k | k in writeSet)
      ensures old(aborted) <= aborted
      ensures var rp := ReadPass(old(entries), tx, readSet, 0, tx in old(aborted));
        (executed <==> !rp.2) &&
        localGet == (set j | 0 <= j < rp.1 :: readSet[j]) &&
        (rp.2 ==> entries == rp.0 && aborted == old(aborted) + {tx} && localPut == {}) &&
        (!rp.2 ==> entries == WritePass(rp.0, tx, writeSet, 0).0 &&
                   aborted == old(aborted) + WritePass(rp.0, tx, writeSet, 0).1)
    {
      ghost var rp := ReadPass(entries, tx, readSet, 0, tx in aborted);
      localGet, localPut, executed := {}, {}, false;
      var i := 0;
      while i < |readSet|
        invariant 0 <= i <= |readSet| && Valid() && committed == old(committed)
        invariant localGet == set j | 0 <= j < i :: readSet[j]
        invariant aborted == old(aborted)
        invariant i > 0 ==> tx !in aborted
        invariant ReadPass(entries, tx, readSet, i, tx in aborted) == rp
      {
        ReserveGetKey(tx, readSet[i]);
        if tx in aborted {
          assert localGet <= set k | k in readSet;
          return;
        }
        localGet := localGet + {readSet[i]};
        i := i + 1;
      }
      if tx in aborted {
        return;
      }
      assert localGet == set k | k in readSet;
      ghost var a1 := aborted;
      ghost var wp := WritePass(entries, tx, writeSet, 0);
      i := 0;
      while i < |writeSet|
        invariant 0 <= i <= |writeSet| && Valid() && committed == old(committed)
        invariant localPut == set j | 0 <= j < i :: writeSet[j]
        invariant a1 <= aborted
        invariant tx !in aborted
        invariant WritePass(entries, tx, writeSet, i).0 == wp.0
        invariant aborted + WritePass(entries, tx, writeSet, i).1 == a1 + wp.1
      {
        // A write aborts only readers of newer blocks, never `tx` itself, so
        // the handler's abort check after each write cannot fire here.
        WritePassSparesWriter(entries, tx, writeSet, i);
        ReservePutKey(tx, writeSet[i]);
        localPut := localPut + {writeSet[i]};
        i := i + 1;
      }
      executed := true;
    }
  }
}
