/** The block generator (utils/Generator/UTxGenerator.cpp): a TxGenerator
    cuts its transaction count into blocks of `blockSize`, numbers the
    transactions of each block 1..blockSize from a global id counter, adds
    up the root costs and builds the block's indexes (TxIndex).

    The TPC-C transactions, the sub-transactions `buildVertexs` makes of
    them and the inverted index it fills are inputs here: one `BlockInput`
    per block. */
module TxGen {
  import opened Wrappers
  import opened TxIndex

  /** 2^64: `size_t` arithmetic wraps modulo this. */
  const SizeMod: int := 0x1_0000_0000_0000_0000

  /** 2^32: conversions to `int` wrap modulo this. */
  const IntMod: int := 0x1_0000_0000

  /** An `int` converted to `size_t`. */
  function ToSize(n: int): (r: nat)
    ensures r < SizeMod && (r - n) % SizeMod == 0
    ensures 0 <= n < SizeMod ==> r == n
  {
    n % SizeMod
  }

  /** An unsigned value converted to a 32-bit `int`. */
  function ToInt(n: nat): (r: int)
    ensures -IntMod / 2 <= r < IntMod / 2 && (r - n) % IntMod == 0
    ensures n < IntMod / 2 ==> r == n
  {
    var m := n % IntMod;
    if m < IntMod / 2 then m else m - IntMod
  }

  /** generateWorkload's block count, m_txNum / m_blockSize, with the
      signed count converted to `size_t`: the number of whole blocks. */
  function BlockCount(txNum: int, blockSize: nat): (r: nat)
    requires 0 < blockSize < SizeMod
    ensures r * blockSize <= ToSize(txNum) < (r + 1) * blockSize
    ensures 0 <= txNum < SizeMod ==> r * blockSize <= txNum < (r + 1) * blockSize
  {
    ToSize(txNum) / blockSize
  }

  /** The transaction count ParseWorkload hands to its generator:
      `BLOCK_SIZE * num_blocks`, a `size_t` product, passed as the `int`
      count. */
  function WorkloadTxNum(blockSize: nat, numBlocks: nat): (r: int)
    ensures blockSize * numBlocks < IntMod / 2 ==> r == blockSize * numBlocks
  {
    ToInt((blockSize * numBlocks) % SizeMod)
  }

  /** With a non-zero block size and a product that fits an `int`, the
      generator ParseWorkload builds makes exactly `num_blocks` blocks. */
  lemma WorkloadBlocks(blockSize: nat, numBlocks: nat)
    requires 0 < blockSize < SizeMod && blockSize * numBlocks < IntMod / 2
    ensures BlockCount(WorkloadTxNum(blockSize, numBlocks), blockSize) == numBlocks
  {
    var txNum := WorkloadTxNum(blockSize, numBlocks);
    var r := BlockCount(txNum, blockSize);
    assert r * blockSize <= numBlocks * blockSize < (r + 1) * blockSize;
    MulCancel(r, numBlocks + 1, blockSize);
    MulCancel(numBlocks, r + 1, blockSize);
  }

  /** A product with a positive factor is monotone in the other factor. */
  lemma MulCancel(a: nat, b: nat, c: nat)
    requires 0 < c && a * c < b * c
    ensures a < b
  {
  }

  /** generateTransaction's txid, (getId() - 1) % m_blockSize + 1, in
      `size_t` arithmetic and then stored in an `int`; for block sizes an
      `int` holds it lies in 1..blockSize (TxIdFirst and TxIdPeriodic say
      which one it is). */
  function TxId(id: int, blockSize: nat): (r: int)
    requires 0 < blockSize < SizeMod
    ensures blockSize < IntMod / 2 ==> 1 <= r <= blockSize
  {
    ToInt(ToSize(id - 1) % blockSize + 1)
  }

  /** Euclidean division leaves one remainder. */
  lemma RemainderUnique(x: int, n: int, q1: int, r1: int, q2: int, r2: int)
    requires 0 < n && 0 <= r1 < n && 0 <= r2 < n
    requires x == q1 * n + r1 && x == q2 * n + r2
    ensures r1 == r2
  {
    // (q1 - q2) * n == r2 - r1 lies strictly between -n and n
    var d := q1 - q2;
    assert d * n == r2 - r1;
    if d >= 1 {
      assert false;
    } else if d <= -1 {
      assert false;
    }
  }

  /** The first `blockSize` ids get txids 1..blockSize. */
  lemma TxIdFirst(i: nat, blockSize: nat)
    requires 0 < blockSize < IntMod / 2 && i < blockSize
    ensures TxId(i + 1, blockSize) == i + 1
  {
    RemainderUnique(i, blockSize, 0, i, i / blockSize, i % blockSize);
  }

  /** Ids `blockSize` apart get the same txid. */
  lemma TxIdPeriodic(id: int, blockSize: nat)
    requires 0 < blockSize < IntMod / 2 && 1 <= id && id + blockSize <= SizeMod
    ensures TxId(id + blockSize, blockSize) == TxId(id, blockSize)
  {
    var x := id - 1;
    RemainderUnique(x + blockSize, blockSize, x / blockSize + 1, x % blockSize,
                    (x + blockSize) / blockSize, (x + blockSize) % blockSize);
  }

  /** After `b` whole blocks, the `i`-th transaction of the next one gets
      txid i + 1. */
  lemma {:induction false} TxIdInBlock(b: nat, i: nat, blockSize: nat)
    requires 0 < blockSize < IntMod / 2 && i < blockSize && (b + 1) * blockSize <= SizeMod
    ensures TxId(b * blockSize + i + 1, blockSize) == i + 1
  {
    if b == 0 {
      TxIdFirst(i, blockSize);
    } else {
      assert b * blockSize == (b - 1) * blockSize + blockSize;
      TxIdInBlock(b - 1, i, blockSize);
      TxIdPeriodic((b - 1) * blockSize + i + 1, blockSize);
    }
  }

  // ---------------------------------------------------------------------
  // totalCost: a `size_t` to which each root cost, a double, is added

  /** The sum of the costs. */
  function Sum(costs: seq<real>): real {
    if costs == [] then 0.0 else Sum(costs[..|costs| - 1]) + costs[|costs| - 1]
  }

  /** The sum of the costs with each one's fractional part dropped. */
  function SumFloors(costs: seq<real>): int {
    if costs == [] then 0 else SumFloors(costs[..|costs| - 1]) + costs[|costs| - 1].Floor
  }

  /** Adding a real to an integer and truncating drops only the real's
      fractional part. */
  lemma FloorShift(n: int, c: real)
    ensures (n as real + c).Floor == n + c.Floor
  {
    var f := c.Floor;
    assert f as real <= c < f as real + 1.0;
    assert (n + f) as real <= n as real + c < (n + f) as real + 1.0;
  }

  /** The fractional parts dropped cost less than one per transaction. */
  lemma {:induction false} SumFloorsBounds(costs: seq<real>)
    ensures Sum(costs) - |costs| as real < SumFloors(costs) as real <= Sum(costs) || costs == []
    ensures costs == [] ==> SumFloors(costs) == 0 && Sum(costs) == 0.0
  {
    if costs != [] {
      var init := costs[..|costs| - 1];
      var c := costs[|costs| - 1];
      SumFloorsBounds(init);
      assert c.Floor as real <= c < c.Floor as real + 1.0;
    }
  }

  /** Whole-number costs are added up exactly. */
  lemma {:induction false} SumFloorsWhole(costs: seq<real>)
    requires forall i :: 0 <= i < |costs| ==> costs[i] == costs[i].Floor as real
    ensures SumFloors(costs) as real == Sum(costs)
  {
    if costs != [] {
      SumFloorsWhole(costs[..|costs| - 1]);
    }
  }

  // ---------------------------------------------------------------------
  // Blocks

  /** A generated transaction: its root's cost and the sub-transactions
      of its hyper-vertex. */
  datatype BuiltTx = BuiltTx(rootCost: real, subs: seq<Sub>)

  /** What one block is made of: its transactions, in workload order, and
      the inverted index their construction filled. */
  datatype BlockInput = BlockInput(txs: seq<BuiltTx>, inv: map<string, RWSets>)

  /** A generated block: its id, the txid of each transaction, the
      sub-transactions of all of them, the inverted index, the indexes
      and the total cost. */
  datatype Block = Block(blockId: nat, txIds: seq<int>, txLists: seq<Sub>, inv: map<string, RWSets>,
                         indexes: Indexes, totalCost: int)

  /** The sub-transactions of the transactions, concatenated in order. */
  function AllSubs(txs: seq<BuiltTx>): seq<Sub> {
    if txs == [] then [] else AllSubs(txs[..|txs| - 1]) + txs[|txs| - 1].subs
  }

  /** Their root costs. */
  function RootCosts(txs: seq<BuiltTx>): (r: seq<real>)
    ensures |r| == |txs| && forall i :: 0 <= i < |txs| ==> r[i] == txs[i].rootCost
  {
    seq(|txs|, i requires 0 <= i < |txs| => txs[i].rootCost)
  }

  /** The block txids of ids first + 1, first + 2, ... */
  function TxIds(first: int, n: nat, blockSize: nat): (r: seq<int>)
    requires 0 < blockSize < SizeMod
    ensures |r| == n && forall i :: 0 <= i < n ==> r[i] == TxId(first + i + 1, blockSize)
  {
    seq(n, i requires 0 <= i < n => TxId(first + i + 1, blockSize))
  }

  /** A TxGenerator: the global id counter, the transaction count, the
      block size and the blocks generated so far. */
  class TxGenerator {
    var idCounter: int
    const txNum: int
    const blockSize: nat
    var blocks: seq<Block>

    /** The counter starts at 0, with no block. */
    constructor(txNum: int, blockSize: nat)
      requires 0 < blockSize < SizeMod
      ensures idCounter == 0 && this.txNum == txNum && this.blockSize == blockSize && blocks == []
    {
      idCounter := 0;
      this.txNum := txNum;
      this.blockSize := blockSize;
      blocks := [];
    }

    /** getId: the next global id. */
    method GetId() returns (id: int)
      modifies this`idCounter
      ensures idCounter == old(idCounter) + 1 && id == idCounter
    {
      idCounter := idCounter + 1;
      id := idCounter;
    }

    /** generateTransaction's numbering: the txid of the next transaction. */
    method NextTxId() returns (txid: int)
      requires 0 < blockSize < SizeMod
      modifies this`idCounter
      ensures idCounter == old(idCounter) + 1 && txid == TxId(idCounter, blockSize)
    {
      var id := GetId();
      txid := ToInt(ToSize(id - 1) % blockSize + 1);
    }

    /** generateBlock: numbers the transactions, adds up their root costs
        and builds the indexes over all their sub-transactions; `None` when
        building the indexes throws. */
    method GenerateBlock(input: BlockInput, blockId: nat) returns (r: Option<Block>)
      requires 0 < blockSize < SizeMod && |input.txs| == blockSize
      modifies this`idCounter
      ensures idCounter == old(idCounter) + blockSize
      ensures r.None? <==> Unindexable(input)
      ensures r.Some? ==> Made(r.value, input, blockId, old(idCounter))
    {
      var txIds: seq<int> := [];
      var txLists: seq<Sub> := [];
      var totalCost := 0;
      ghost var first := idCounter;
      for i := 0 to blockSize
        invariant idCounter == first + i
        invariant txIds == TxIds(first, i, blockSize)
        invariant txLists == AllSubs(input.txs[..i])
        invariant totalCost == SumFloors(RootCosts(input.txs)[..i])
      {
        var txid := NextTxId();
        var tx := input.txs[i];
        assert input.txs[..i + 1][..i] == input.txs[..i];
        assert RootCosts(input.txs)[..i + 1][..i] == RootCosts(input.txs)[..i];
        txLists := txLists + tx.subs;
        txIds := txIds + [txid];
        FloorShift(totalCost, tx.rootCost);
        totalCost := (totalCost as real + tx.rootCost).Floor;
      }
      assert input.txs[..blockSize] == input.txs;
      assert RootCosts(input.txs)[..blockSize] == RootCosts(input.txs);
      var indexes := GenerateIndex(txLists, input.inv);
      if indexes.None? {
        return None;
      }
      r := Some(Block(blockId, txIds, txLists, input.inv, indexes.value, totalCost));
    }

    /** generateWorkload: BlockCount(txNum, blockSize) blocks with ids 1,
        2, ..., appended to the blocks generated so far, which it returns;
        `None` when building a block's indexes throws. */
    method GenerateWorkload(inputs: seq<BlockInput>) returns (r: Option<seq<Block>>)
      requires 0 < blockSize < SizeMod && |inputs| == BlockCount(txNum, blockSize)
      requires forall j :: 0 <= j < |inputs| ==> |inputs[j].txs| == blockSize
      modifies this`idCounter, this`blocks
      ensures r.None? <==> exists j :: 0 <= j < |inputs| && Unindexable(inputs[j])
      ensures r.Some? ==>
        && idCounter == Start(old(idCounter), |inputs|, blockSize)
        && r.value == blocks && |blocks| == |old(blocks)| + |inputs| && blocks[..|old(blocks)|] == old(blocks)
        && forall j :: 0 <= j < |inputs| ==> Made(blocks[|old(blocks)| + j], inputs[j], j + 1, Start(old(idCounter), j, blockSize))
    {
      ghost var first, before := idCounter, blocks;
      for j := 0 to |inputs|
        invariant idCounter == Start(first, j, blockSize)
        invariant |blocks| == |before| + j && blocks[..|before|] == before
        invariant forall k :: 0 <= k < j ==> !Unindexable(inputs[k])
        invariant forall k :: 0 <= k < j ==> Made(blocks[|before| + k], inputs[k], k + 1, Start(first, k, blockSize))
      {
        var block := GenerateBlock(inputs[j], j + 1);
        if block.None? {
          return None;
        }
        blocks := blocks + [block.value];
        NextStart(first, j, blockSize);
      }
      r := Some(blocks);
    }
  }

  /** The value of the id counter after `j` whole blocks. */
  function Start(first: int, j: nat, blockSize: nat): int {
    first + j * blockSize
  }

  lemma NextStart(first: int, j: nat, blockSize: nat)
    ensures Start(first, j + 1, blockSize) == Start(first, j, blockSize) + blockSize
  {
  }

  /** On a fresh generator, every generated block numbers its
      transactions 1..blockSize (while the ids stay within `size_t`). */
  lemma BlockNumbering(block: Block, input: BlockInput, j: nat)
    requires 0 < |input.txs| < IntMod / 2 && (j + 1) * |input.txs| <= SizeMod
    requires Made(block, input, j + 1, Start(0, j, |input.txs|))
    ensures forall i :: 0 <= i < |input.txs| ==> block.txIds[i] == i + 1
  {
    forall i | 0 <= i < |input.txs|
      ensures block.txIds[i] == i + 1
    {
      TxIdInBlock(j, i, |input.txs|);
    }
  }

  /** Building the indexes of this block's input throws. */
  predicate Unindexable(input: BlockInput) {
    SomeUnknown(input.inv, AllSubs(input.txs), |AllSubs(input.txs)|)
  }

  /** `block` is what generateBlock makes of `input` as block `blockId`
      once `first` ids have been handed out. */
  predicate Made(block: Block, input: BlockInput, blockId: nat, first: int)
    requires 0 < |input.txs| < SizeMod
  {
    && block.blockId == blockId
    && block.txIds == TxIds(first, |input.txs|, |input.txs|)
    && block.txLists == AllSubs(input.txs)
    && block.inv == input.inv
    && block.indexes.rwIndex == RWIndexOf(input.inv, input.inv.Keys)
    && block.indexes.rbIndex == RBIndexOf(input.inv, input.inv.Keys)
    && |block.indexes.conflictIndex| == |AllSubs(input.txs)|
    && (forall i :: 0 <= i < |AllSubs(input.txs)| ==>
          block.indexes.conflictIndex[i] == ConflictOf(input.inv, AllSubs(input.txs)[i]))
    && block.totalCost == SumFloors(RootCosts(input.txs))
  }
}
