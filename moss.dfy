/** Moss (protocol/moss/Moss.cpp): a single-version table where every key
    records its current writer and the transactions that read it.  A read
    that sees a write by a smaller id, a write that finds a reader with a
    larger id, and a write that loses to a smaller-id writer all raise a
    conflict flag on the transaction that must re-execute; transactions
    finalize one after another in id order. */
module Moss {
  import opened Wrappers

  /** MossTransaction: its id never changes; the conflict flag and the local
      read and write sets are updated in place. */
  class MossTx {
    const id: nat
    var flagConflict: bool
    var localGet: map<string, string>
    var localPut: map<string, string>

    constructor (id: nat)
      ensures this.id == id && !flagConflict && localGet == map[] && localPut == map[]
    {
      this.id := id;
      flagConflict := false;
      localGet := map[];
      localPut := map[];
    }
  }

  /** MossEntry: the value, the writer (None for a null pointer) and the set
      of readers. */
  datatype Entry = Entry(value: string, writer: Option<MossTx>, readers: set<MossTx>)

  /** A default-constructed entry. */
  const Empty: Entry := Entry("", None, {})

  /** The writer of an entry as a set, for frames. */
  function WriterSet(e: Entry): set<MossTx> {
    if e.writer.Some? then {e.writer.value} else {}
  }

  /** MossTable::Get on one entry: a write by a smaller id means `tx` read a
      stale value (the result is None and `tx` is flagged, nothing recorded);
      otherwise `tx` reads the value and joins the readers. */
  function GetEntry(e: Entry, tx: MossTx): (r: (Entry, Option<string>))
    ensures r.1.None? <==> e.writer.Some? && e.writer.value.id < tx.id
    ensures r.1.None? ==> r.0 == e
    ensures r.1.Some? ==> r.1.value == e.value && r.0 == e.(readers := e.readers + {tx})
  {
    if e.writer.Some? && e.writer.value.id < tx.id then (e, None)
    else (e.(readers := e.readers + {tx}), Some(e.value))
  }

  /** The entry MossTable::Put leaves: a rewrite by the same id replaces the
      value, a smaller id takes the writer slot over, a larger id changes
      nothing (it is flagged instead), and an empty slot is taken. */
  function PutEntry(e: Entry, tx: MossTx, v: string): (r: Entry)
    ensures r.readers == e.readers
    ensures r.writer.Some?
    ensures e.writer.None? ==> r.writer == Some(tx)
    ensures e.writer.Some? ==> r.writer.value.id == (if tx.id < e.writer.value.id then tx.id else e.writer.value.id)
    ensures r.value == if e.writer.Some? && e.writer.value.id == tx.id then v else e.value
  {
    match e.writer
    case None => e.(writer := Some(tx))
    case Some(w) =>
      if w.id == tx.id then e.(value := v)
      else if w.id > tx.id then e.(writer := Some(tx))
      else e
  }

  /** The transactions MossTable::Put flags: readers with a larger id (they
      read too early), a larger-id writer it displaces, or `tx` itself when a
      smaller id already wrote. */
  function PutVictims(e: Entry, tx: MossTx): set<MossTx> {
    (set r | r in e.readers && r.id > tx.id)
    + (if e.writer.Some? && e.writer.value.id > tx.id then {e.writer.value} else {})
    + (if e.writer.Some? && e.writer.value.id < tx.id then {tx} else {})
  }

  /** A read and an older write of the same key are caught whichever comes
      first: the write flags the reader, or the read flags itself. */
  lemma {:induction false} WarCaughtEitherOrder(e: Entry, w: MossTx, r: MossTx, v: string)
    requires w.id < r.id
    ensures GetEntry(PutEntry(e, w, v), r).1.None?
    ensures GetEntry(e, r).1.Some? ==> r in PutVictims(GetEntry(e, r).0, w)
  {
    var e1 := PutEntry(e, w, v);
    assert e1.writer.value.id <= w.id;
  }

  /** Of two writers to a key the smaller id keeps the slot, in either order;
      the other one is flagged. */
  lemma {:induction false} SmallerWriterWins(e: Entry, a: MossTx, b: MossTx, v: string, u: string)
    requires e.writer.None? && a.id < b.id
    ensures PutEntry(PutEntry(e, a, v), b, u).writer == Some(a)
    ensures PutEntry(PutEntry(e, b, u), a, v).writer == Some(a)
    ensures b in PutVictims(PutEntry(e, a, v), b) && b in PutVictims(PutEntry(e, b, u), a)
  {
    assert PutEntry(e, a, v).writer == Some(a);
    assert PutEntry(e, b, u).writer == Some(b);
  }

  class MossTable {
    var entries: map<string, Entry>

    function Get(k: string): Entry
      reads this
    {
      if k in entries then entries[k] else Empty
    }

    constructor ()
      ensures entries == map[]
    {
      entries := map[];
    }

    /** MossTable::Get. */
    method Read(tx: MossTx, k: string) returns (v: Option<string>)
      modifies this, tx
      ensures (entries, v) == (old(entries)[k := GetEntry(old(Get(k)), tx).0], GetEntry(old(Get(k)), tx).1)
      ensures tx.flagConflict == (old(tx.flagConflict) || v.None?)
      ensures tx.localGet == old(tx.localGet) && tx.localPut == old(tx.localPut)
    {
      var e := Get(k);
      if e.writer.Some? && e.writer.value.id < tx.id {
        tx.flagConflict := true;
        v := None;
      } else {
        v := Some(e.value);
        e := e.(readers := e.readers + {tx});
      }
      entries := entries[k := e];
    }

    /** MossTable::Put. */
    method Write(tx: MossTx, k: string, v: string)
      modifies this, tx, Get(k).readers, WriterSet(Get(k))
      ensures entries == old(entries)[k := PutEntry(old(Get(k)), tx, v)]
      ensures forall o :: o in old(Get(k)).readers || o == tx || o in WriterSet(old(Get(k))) ==>
        o.flagConflict == (old(o.flagConflict) || o in PutVictims(old(Get(k)), tx))
      ensures forall o :: o in old(Get(k)).readers || o == tx || o in WriterSet(old(Get(k))) ==>
        o.localGet == old(o.localGet) && o.localPut == old(o.localPut)
    {
      var e := Get(k);
      FlagNewerReaders(e.readers, tx);
      match e.writer {
        case None =>
          e := e.(writer := Some(tx));
        case Some(w) =>
          if w.id == tx.id {
            e := e.(value := v);
          } else if w.id > tx.id {
            w.flagConflict := true;
            e := e.(writer := Some(tx));
          } else if w.id < tx.id {
            tx.flagConflict := true;
          }
      }
      entries := entries[k := e];
    }

    /** MossTable::ClearGet: `tx` is no longer a reader of `k`. */
    method ClearGet(tx: MossTx, k: string)
      modifies this
      ensures entries == old(entries)[k := old(Get(k)).(readers := old(Get(k)).readers - {tx})]
    {
      var e := Get(k);
      entries := entries[k := e.(readers := e.readers - {tx})];
    }

    /** MossTable::ClearPut: the writer slot is emptied only if `tx` holds it. */
    method ClearPut(tx: MossTx, k: string)
      modifies this
      ensures entries == old(entries)[k := if old(Get(k)).writer == Some(tx) then old(Get(k)).(writer := None) else old(Get(k))]
    {
      var e := Get(k);
      if e.writer == Some(tx) {
        e := e.(writer := None);
      }
      entries := entries[k := e];
    }
  }

  /** The readers loop of MossTable::Put: every reader with a larger id than
      `tx` is flagged. */
  method FlagNewerReaders(readers: set<MossTx>, tx: MossTx)
    modifies readers
    ensures forall o :: o in readers ==> o.flagConflict == (old(o.flagConflict) || o.id > tx.id)
    ensures forall o :: o in readers ==> o.localGet == old(o.localGet) && o.localPut == old(o.localPut)
  {
    var rest := readers;
    while rest != {}
      invariant rest <= readers
      invariant forall o :: o in readers ==> o.flagConflict == (old(o.flagConflict) || (o !in rest && o.id > tx.id))
      invariant forall o :: o in readers ==> o.localGet == old(o.localGet) && o.localPut == old(o.localPut)
      decreases rest
    {
      var r :| r in rest;
      if r.id > tx.id {
        r.flagConflict := true;
      }
      rest := rest - {r};
    }
  }

  /** The driver state: the table and how many transactions have finalized. */
  class MossEngine {
    const table: MossTable
    var lastFinalized: nat

    constructor (table: MossTable)
      ensures this.table == table && lastFinalized == 0
    {
      this.table := table;
      lastFinalized := 0;
    }

    /** Moss::ReExecute, up to running the transaction again: the flag is
        cleared and the local read and write sets are emptied. */
    method ReExecute(tx: MossTx)
      modifies tx
      ensures !tx.flagConflict && tx.localGet == map[] && tx.localPut == map[]
    {
      tx.flagConflict := false;
      tx.localGet := map[];
      tx.localPut := map[];
    }

    /** Moss::Finalize: `tx` leaves the readers of what it read and the
        writer slot of what it wrote, and one more transaction has
        finalized. */
    method Finalize(tx: MossTx)
      modifies table
      modifies this
      ensures lastFinalized == old(lastFinalized) + 1
      ensures forall k :: table.Get(k).value == old(table.Get(k)).value
      ensures forall k :: table.Get(k).readers == if k in tx.localGet then old(table.Get(k)).readers - {tx} else old(table.Get(k)).readers
      ensures forall k ::
                table.Get(k).writer == if k in tx.localPut && old(table.Get(k)).writer == Some(tx) then None else old(table.Get(k)).writer
    {
      ClearReads(table, tx, tx.localGet.Keys);
      ClearWrites(table, tx, tx.localPut.Keys);
      lastFinalized := lastFinalized + 1;
    }
  }

  /** Finalize's loop over the read set. */
  method ClearReads(table: MossTable, tx: MossTx, keys: set<string>)
    modifies table
    ensures forall k :: table.Get(k) == if k in keys then old(table.Get(k)).(readers := old(table.Get(k)).readers - {tx}) else old(table.Get(k))
  {
    var rest := keys;
    while rest != {}
      invariant rest <= keys
      invariant forall k :: table.Get(k) == if k in keys - rest then old(table.Get(k)).(readers := old(table.Get(k)).readers - {tx}) else old(table.Get(k))
      decreases rest
    {
      var k :| k in rest;
      table.ClearGet(tx, k);
      rest := rest - {k};
    }
  }

  /** Finalize's loop over the write set. */
  method ClearWrites(table: MossTable, tx: MossTx, keys: set<string>)
    modifies table
    ensures forall k ::
              table.Get(k) == if k in keys && old(table.Get(k)).writer == Some(tx) then old(table.Get(k)).(writer := None) else old(table.Get(k))
  {
    var rest := keys;
    while rest != {}
      invariant rest <= keys
      invariant forall k ::
                  table.Get(k) == if k in keys - rest && old(table.Get(k)).writer == Some(tx) then old(table.Get(k)).(writer := None) else old(table.Get(k))
      decreases rest
    {
      var k :| k in rest;
      table.ClearPut(tx, k);
      rest := rest - {k};
    }
  }
}
