/** Harmony (protocol/harmony/Harmony.cpp).  While a batch executes, every
    read-write dependency Tj -> Ti (Tj read a key Ti writes) lowers Tj's
    `min_out` to Ti's id and raises Ti's `max_in` to Tj's id.  A transaction
    that must precede a smaller id, and is itself preceded by an id at least as
    large as that one, aborts at verification.  Blocks are first split into
    one batch per worker thread. */
module Harmony {

  function Min(a: nat, b: nat): nat {
    if a <= b then a else b
  }

  function Max(a: nat, b: nat): nat {
    if a >= b then a else b
  }

  /** HarmonyTransaction: its ids never change; `min_out`, `max_in` and the
      conflict flag are updated in place through pointers. */
  class HarmonyTx {
    const id: nat
    const batchId: nat
    var minOut: nat
    var maxIn: nat
    var flagConflict: bool

    /** The intra-block abort rule. */
    predicate Conflicts()
      reads this
    {
      minOut < id && minOut <= maxIn
    }

    /** A new transaction has no dependencies yet: min_out is one past its id
        and max_in is the smallest size_t. */
    constructor (id: nat, batchId: nat)
      ensures this.id == id && this.batchId == batchId
      ensures minOut == id + 1 && maxIn == 0 && !flagConflict
      ensures !Conflicts()
    {
      this.id := id;
      this.batchId := batchId;
      minOut := id + 1;
      maxIn := 0;
      flagConflict := false;
    }

    /** HarmonyExecutor::Verify: with inter-block execution disabled the flag
        is raised when the abort rule holds; it is never cleared. */
    method Verify(enableInterBlock: bool)
      modifies this
      ensures minOut == old(minOut) && maxIn == old(maxIn)
      ensures flagConflict <==> old(flagConflict) || (!enableInterBlock && Conflicts())
    {
      if enableInterBlock {
      } else {
        if minOut < id && minOut <= maxIn {
          flagConflict := true;
        }
      }
    }
  }

  /** HarmonyTable::on_seeing_rw_dependency: `tj` read a key `ti` writes, so
      `tj` must come before `ti`.  The two may be the same transaction. */
  method OnSeeingRwDependency(ti: HarmonyTx, tj: HarmonyTx)
    modifies ti, tj
    ensures tj.minOut == Min(ti.id, old(tj.minOut)) && tj.minOut <= old(tj.minOut)
    ensures ti.maxIn == Max(tj.id, old(ti.maxIn)) && ti.maxIn >= old(ti.maxIn)
    ensures ti != tj ==> ti.minOut == old(ti.minOut) && tj.maxIn == old(tj.maxIn)
    ensures ti.flagConflict == old(ti.flagConflict) && tj.flagConflict == old(tj.flagConflict)
  {
    tj.minOut := Min(ti.id, tj.minOut);
    ti.maxIn := Max(tj.id, ti.maxIn);
  }

  /** `init` lowered to every id of `txs`. */
  function MinIdOf(txs: seq<HarmonyTx>, init: nat): nat {
    if txs == [] then init else Min(MinIdOf(txs[..|txs| - 1], init), txs[|txs| - 1].id)
  }

  /** `init` raised to every id of `txs`. */
  function MaxIdOf(txs: seq<HarmonyTx>, init: nat): nat {
    if txs == [] then init else Max(MaxIdOf(txs[..|txs| - 1], init), txs[|txs| - 1].id)
  }

  /** The lowered value is the smallest of `init` and the ids, and is one of
      them. */
  lemma {:induction false} MinIdOfSpec(txs: seq<HarmonyTx>, init: nat)
    ensures MinIdOf(txs, init) <= init
    ensures forall o :: o in txs ==> MinIdOf(txs, init) <= o.id
    ensures MinIdOf(txs, init) == init || exists o :: o in txs && o.id == MinIdOf(txs, init)
    decreases |txs|
  {
    if txs != [] {
      var front := txs[..|txs| - 1];
      MinIdOfSpec(front, init);
      assert txs == front + [txs[|txs| - 1]];
    }
  }

  /** The raised value is the largest of `init` and the ids, and is one of
      them. */
  lemma {:induction false} MaxIdOfSpec(txs: seq<HarmonyTx>, init: nat)
    ensures MaxIdOf(txs, init) >= init
    ensures forall o :: o in txs ==> MaxIdOf(txs, init) >= o.id
    ensures MaxIdOf(txs, init) == init || exists o :: o in txs && o.id == MaxIdOf(txs, init)
    decreases |txs|
  {
    if txs != [] {
      var front := txs[..|txs| - 1];
      MaxIdOfSpec(front, init);
      assert txs == front + [txs[|txs| - 1]];
    }
  }

  /** HarmonyEntry: the transactions that read and that wrote a key, in
      order (the value column is not modelled). */
  datatype Entry = Entry(readers: seq<HarmonyTx>, writers: seq<HarmonyTx>)

  class HarmonyTable {
    var entries: map<string, Entry>

    function Get(k: string): Entry
      reads this
    {
      if k in entries then entries[k] else Entry([], [])
    }

    constructor ()
      ensures entries == map[]
    {
      entries := map[];
    }

    /** The read handler of HarmonyExecutor::Execute for one key: `tx` sees a
        dependency on every writer of the key reserved so far, then joins its
        readers.  Its min_out drops to the smallest writer id; each writer's
        max_in rises to `tx`'s id. */
    method ReadKey(tx: HarmonyTx, k: string)
      modifies this, tx, Get(k).writers
      ensures entries == old(entries)[k := Entry(old(Get(k)).readers + [tx], old(Get(k)).writers)]
      ensures tx.minOut == MinIdOf(old(Get(k)).writers, old(tx.minOut))
      ensures forall o :: o in old(Get(k)).writers ==> tx.minOut <= o.id
      ensures forall o :: o in old(Get(k)).writers ==> o.maxIn == Max(old(o.maxIn), tx.id)
      ensures forall o :: o in old(Get(k)).writers && o != tx ==> o.minOut == old(o.minOut)
      ensures tx !in old(Get(k)).writers ==> tx.maxIn == old(tx.maxIn)
      ensures tx.flagConflict == old(tx.flagConflict)
      ensures forall o :: o in old(Get(k)).writers ==> o.flagConflict == old(o.flagConflict)
    {
      var e := Get(k);
      var ws := e.writers;
      var i := 0;
      while i < |ws|
        invariant 0 <= i <= |ws| && entries == old(entries)
        invariant tx.minOut == MinIdOf(ws[..i], old(tx.minOut))
        invariant forall o :: o in ws ==> o.maxIn == if o in ws[..i] then Max(old(o.maxIn), tx.id) else old(o.maxIn)
        invariant forall o :: o in ws && o != tx ==> o.minOut == old(o.minOut)
        invariant tx !in ws ==> tx.maxIn == old(tx.maxIn)
        invariant tx.flagConflict == old(tx.flagConflict)
        invariant forall o :: o in ws ==> o.flagConflict == old(o.flagConflict)
      {
        assert ws[..i + 1][..i] == ws[..i];
        assert forall o :: o in ws[..i + 1] <==> o in ws[..i] || o == ws[i];
        OnSeeingRwDependency(ws[i], tx);
        i := i + 1;
      }
      assert ws[..i] == ws;
      MinIdOfSpec(ws, old(tx.minOut));
      entries := entries[k := Entry(e.readers + [tx], e.writers)];
    }

    /** The write handler of HarmonyExecutor::Execute for one key: every
        reader of the key reserved so far sees a dependency on `tx`, then `tx`
        joins the writers.  Each reader's min_out drops to `tx`'s id; `tx`'s
        max_in rises to the largest reader id. */
    method WriteKey(tx: HarmonyTx, k: string)
      modifies this, tx, Get(k).readers
      ensures entries == old(entries)[k := Entry(old(Get(k)).readers, old(Get(k)).writers + [tx])]
      ensures tx.maxIn == MaxIdOf(old(Get(k)).readers, old(tx.maxIn))
      ensures forall o :: o in old(Get(k)).readers ==> tx.maxIn >= o.id
      ensures forall o :: o in old(Get(k)).readers ==> o.minOut == Min(old(o.minOut), tx.id)
      ensures forall o :: o in old(Get(k)).readers && o != tx ==> o.maxIn == old(o.maxIn)
      ensures tx !in old(Get(k)).readers ==> tx.minOut == old(tx.minOut)
      ensures tx.flagConflict == old(tx.flagConflict)
      ensures forall o :: o in old(Get(k)).readers ==> o.flagConflict == old(o.flagConflict)
    {
      var e := Get(k);
      var rs := e.readers;
      var i := 0;
      while i < |rs|
        invariant 0 <= i <= |rs| && entries == old(entries)
        invariant tx.maxIn == MaxIdOf(rs[..i], old(tx.maxIn))
        invariant forall o :: o in rs ==> o.minOut == if o in rs[..i] then Min(old(o.minOut), tx.id) else old(o.minOut)
        invariant forall o :: o in rs && o != tx ==> o.maxIn == old(o.maxIn)
        invariant tx !in rs ==> tx.minOut == old(tx.minOut)
        invariant tx.flagConflict == old(tx.flagConflict)
        invariant forall o :: o in rs ==> o.flagConflict == old(o.flagConflict)
      {
        assert rs[..i + 1][..i] == rs[..i];
        assert forall o :: o in rs[..i + 1] <==> o in rs[..i] || o == rs[i];
        OnSeeingRwDependency(tx, rs[i]);
        i := i + 1;
      }
      assert rs[..i] == rs;
      MaxIdOfSpec(rs, old(tx.maxIn));
      entries := entries[k := Entry(e.readers, e.writers + [tx])];
    }
  }

  /** The abort rule in terms of the dependencies themselves: a transaction
      that had to precede an older transaction `a` and follow a transaction
      `b` no older than `a` conflicts. */
  lemma {:induction false} DangerousStructureConflicts(id: nat, writers: seq<HarmonyTx>, readers: seq<HarmonyTx>, a: HarmonyTx, b: HarmonyTx)
    requires a in writers && b in readers && a.id < id && a.id <= b.id
    ensures MinIdOf(writers, id + 1) < id && MinIdOf(writers, id + 1) <= MaxIdOf(readers, 0)
  {
    MinIdOfSpec(writers, id + 1);
    MaxIdOfSpec(readers, 0);
  }

  /** Without any dependency toward an older transaction nothing conflicts:
      min_out stays above the id. */
  lemma {:induction false} NoOlderWriterNoConflict(id: nat, writers: seq<HarmonyTx>, maxIn: nat)
    requires forall o :: o in writers ==> o.id >= id
    ensures !(MinIdOf(writers, id + 1) < id && MinIdOf(writers, id + 1) <= maxIn)
  {
    MinIdOfSpec(writers, id + 1);
  }

  /** Start's tx_per_thread: the block size over the thread count, rounded
      up. */
  function PerThread(n: nat, threads: nat): nat
    requires threads >= 1
  {
    (n + threads - 1) / threads
  }

  /** Where the chunk holding position `x` starts: the largest multiple of
      `p` not above `x`. */
  function ChunkStart(x: nat, p: nat): (c: nat)
    requires p >= 1
    ensures c <= x < c + p
    decreases x
  {
    if x < p then 0 else ChunkStart(x - p, p) + p
  }

  /** The positions where Start's outer loop begins a chunk: 0, p, 2p, ... */
  predicate IsChunkStart(j: nat, p: nat)
    requires p >= 1
    decreases j
  {
    j == 0 || (j >= p && IsChunkStart(j - p, p))
  }

  /** Positions j .. j+p-1 after a chunk start all belong to that chunk. */
  lemma {:induction false} ChunkStartOfChunk(j: nat, k: nat, p: nat)
    requires p >= 1 && IsChunkStart(j, p) && k < p
    ensures ChunkStart(j + k, p) == j
    decreases j
  {
    if j != 0 {
      ChunkStartOfChunk(j - p, k, p);
    }
  }

  /** The batch Harmony::Start gives the transaction at position `idx` of a
      block, as written: the chunk holding it starts at `j`, and goes to batch
      `j % threads`. */
  function BatchIndex(idx: nat, perThread: nat, threads: nat): (b: nat)
    requires perThread >= 1 && threads >= 1
    ensures b < threads
  {
    ChunkStart(idx, perThread) % threads
  }

  predicate StrictlyIncreasing(s: seq<nat>) {
    forall i, j :: 0 <= i < j < |s| ==> s[i] < s[j]
  }

  /** Every position in [0, upTo) sits, once and in order, in the batch
      BatchIndex names. */
  predicate SplitUpTo(batch: seq<seq<nat>>, upTo: nat, perThread: nat, threads: nat)
    requires perThread >= 1 && threads >= 1
  {
    && |batch| == threads
    && (forall b :: 0 <= b < threads ==> StrictlyIncreasing(batch[b]))
    && Placed(batch, upTo, perThread, threads)
    && Covered(batch, upTo, perThread, threads)
  }

  /** Every position in a batch is below `upTo` and belongs there. */
  predicate Placed(batch: seq<seq<nat>>, upTo: nat, perThread: nat, threads: nat)
    requires perThread >= 1 && threads >= 1 && |batch| == threads
  {
    forall b: int, x: nat {:trigger x in batch[b]} ::
      0 <= b < threads && x in batch[b] ==> x < upTo && BatchIndex(x, perThread, threads) == b
  }

  /** Every position below `upTo` is in the batch it belongs to. */
  predicate Covered(batch: seq<seq<nat>>, upTo: nat, perThread: nat, threads: nat)
    requires perThread >= 1 && threads >= 1 && |batch| == threads
  {
    forall x :: 0 <= x < upTo ==> x in batch[BatchIndex(x, perThread, threads)]
  }

  /** Appending the next position to its batch extends the split by one. */
  lemma SplitStep(batch: seq<seq<nat>>, x: nat, perThread: nat, threads: nat)
    requires perThread >= 1 && threads >= 1 && SplitUpTo(batch, x, perThread, threads)
    ensures SplitUpTo(batch[BatchIndex(x, perThread, threads) := batch[BatchIndex(x, perThread, threads)] + [x]], x + 1, perThread, threads)
  {
    var b := BatchIndex(x, perThread, threads);
    SplitStepPlaced(batch, x, perThread, threads, b);
    SplitStepOrdered(batch, x, perThread, threads, b);
    SplitStepCovers(batch, x, perThread, threads, b);
  }

  lemma SplitStepPlaced(batch: seq<seq<nat>>, x: nat, perThread: nat, threads: nat, b: nat)
    requires perThread >= 1 && threads >= 1 && SplitUpTo(batch, x, perThread, threads)
    requires b == BatchIndex(x, perThread, threads)
    ensures Placed(batch[b := batch[b] + [x]], x + 1, perThread, threads)
  {
    var out := batch[b := batch[b] + [x]];
    forall c: int, y: nat {:trigger y in out[c]} | 0 <= c < threads && y in out[c]
      ensures y < x + 1 && BatchIndex(y, perThread, threads) == c
    {
      if c == b {
        assert y in batch[b] + [x];
        if y in batch[b] {
          InBatch(batch, x, perThread, threads, b, y);
        } else {
          assert y == x;
        }
      } else {
        assert out[c] == batch[c];
        InBatch(batch, x, perThread, threads, c, y);
      }
    }
  }

  lemma InBatch(batch: seq<seq<nat>>, x: nat, perThread: nat, threads: nat, b: nat, y: nat)
    requires perThread >= 1 && threads >= 1 && SplitUpTo(batch, x, perThread, threads)
    requires b < threads && y in batch[b]
    ensures y < x && BatchIndex(y, perThread, threads) == b
  {
  }

  lemma SplitStepOrdered(batch: seq<seq<nat>>, x: nat, perThread: nat, threads: nat, b: nat)
    requires perThread >= 1 && threads >= 1 && SplitUpTo(batch, x, perThread, threads)
    requires b == BatchIndex(x, perThread, threads)
    ensures var out := batch[b := batch[b] + [x]];
      forall c :: 0 <= c < threads ==> StrictlyIncreasing(out[c])
  {
    var out := batch[b := batch[b] + [x]];
    forall i | 0 <= i < |batch[b]| ensures batch[b][i] < x {
      assert batch[b][i] in batch[b] && BatchIndex(batch[b][i], perThread, threads) == b;
    }
    assert StrictlyIncreasing(out[b]);
  }

  lemma SplitStepCovers(batch: seq<seq<nat>>, x: nat, perThread: nat, threads: nat, b: nat)
    requires perThread >= 1 && threads >= 1 && SplitUpTo(batch, x, perThread, threads)
    requires b == BatchIndex(x, perThread, threads)
    ensures Covered(batch[b := batch[b] + [x]], x + 1, perThread, threads)
  {
    var out := batch[b := batch[b] + [x]];
    forall z | 0 <= z < x + 1 ensures z in out[BatchIndex(z, perThread, threads)] {
      if z < x {
        var zb := BatchIndex(z, perThread, threads);
        assert z in batch[zb];
        if zb == b {
          assert out[zb] == batch[b] + [x];
        }
      }
    }
  }

  /** The inner loop of Start: positions j .. j+perThread-1 (those below n)
      join batch `j % threads`. */
  method PlaceChunk(batch: seq<seq<nat>>, j: nat, perThread: nat, threads: nat, n: nat)
    returns (out: seq<seq<nat>>)
    requires perThread >= 1 && threads >= 1 && IsChunkStart(j, perThread) && j < n
    requires SplitUpTo(batch, j, perThread, threads)
    ensures SplitUpTo(out, if j + perThread <= n then j + perThread else n, perThread, threads)
  {
    var b := j % threads;
    out := batch;
    var k := 0;
    while k < perThread && j + k < n
      invariant 0 <= k <= perThread && j + k <= n
      invariant SplitUpTo(out, j + k, perThread, threads)
    {
      ChunkStartOfChunk(j, k, perThread);
      SplitStep(out, j + k, perThread, threads);
      out := out[b := out[b] + [j + k]];
      k := k + 1;
    }
  }

  /** Harmony::Start's split of one block of `n` transactions over `threads`
      workers: each transaction lands in exactly one batch, the one
      BatchIndex names, and each batch keeps block order. */
  method SplitBlock(n: nat, threads: nat) returns (batch: seq<seq<nat>>)
    requires threads >= 1
    ensures |batch| == threads
    ensures n == 0 ==> forall b :: 0 <= b < threads ==> batch[b] == []
    ensures n > 0 ==> SplitUpTo(batch, n, PerThread(n, threads), threads)
  {
    var perThread := (n + threads - 1) / threads;
    batch := seq(threads, _ => []);
    if n == 0 {
      return;
    }
    var j := 0;
    while j < n
      invariant IsChunkStart(j, perThread)
      invariant SplitUpTo(batch, if j <= n then j else n, perThread, threads)
      decreases n - j
    {
      batch := PlaceChunk(batch, j, perThread, threads, n);
      j := j + perThread;
    }
  }

  /** As written, whole chunks can pile up in one batch: with 4 transactions
      and 2 threads both chunks (starting at 0 and at 2) go to batch 0 and
      batch 1 stays empty, so one thread runs twice its share. */
  lemma SplitCanLeaveThreadIdle()
    ensures PerThread(4, 2) == 2
    ensures forall x :: 0 <= x < 4 ==> BatchIndex(x, 2, 2) == 0
  {
    assert ChunkStart(2, 2) == 2 && ChunkStart(3, 2) == 2;
  }

  /** The number of the chunk holding position `x`. */
  function ChunkNumber(x: nat, p: nat): nat
    requires p >= 1
    decreases x
  {
    if x < p then 0 else ChunkNumber(x - p, p) + 1
  }

  /** The intended split: chunk number i goes to thread i, as AriaER's split
      does with its running chunk index. */
  function BalancedBatchIndex(idx: nat, perThread: nat): nat
    requires perThread >= 1
  {
    ChunkNumber(idx, perThread)
  }

  /** Two positions of the same chunk lie less than `p` apart. */
  lemma {:induction false} SameChunkNumberClose(x: nat, y: nat, p: nat)
    requires p >= 1 && ChunkNumber(x, p) == ChunkNumber(y, p) && x <= y
    ensures y - x < p
    decreases x
  {
    if x >= p {
      SameChunkNumberClose(x - p, y - p, p);
    }
  }

  /** Positions below p * t lie in chunks below t. */
  lemma {:induction false} ChunkNumberBelow(x: nat, p: nat, t: nat)
    requires p >= 1 && t >= 1 && x < p * t
    ensures ChunkNumber(x, p) < t
    decreases x
  {
    if x >= p {
      assert x - p < p * (t - 1);
      ChunkNumberBelow(x - p, p, t - 1);
    }
  }

  /** With tx_per_thread = ceil(n / threads) the intended split sends every
      position to an existing thread, and each thread receives at most
      tx_per_thread transactions (one chunk). */
  lemma BalancedSplitIsBounded(n: nat, threads: nat, x: nat, y: nat)
    requires threads >= 1 && n > 0 && x < n && y < n && x <= y
    ensures BalancedBatchIndex(x, PerThread(n, threads)) < threads
    ensures BalancedBatchIndex(x, PerThread(n, threads)) == BalancedBatchIndex(y, PerThread(n, threads)) ==>
      y - x < PerThread(n, threads)
  {
    var p := PerThread(n, threads);
    assert p * threads >= n by {
      assert (n + threads - 1) == p * threads + (n + threads - 1) % threads;
    }
    ChunkNumberBelow(x, p, threads);
    if ChunkNumber(x, p) == ChunkNumber(y, p) {
      SameChunkNumberClose(x, y, p);
    }
  }
}
