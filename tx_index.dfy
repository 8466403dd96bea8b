/** The indexes a generated block carries (utils/Generator/UTxGenerator.cpp,
    generateIndex), built from the block's inverted index, which maps every
    key to the sub-transactions reading it and those writing it:

    - RWIndex: for each reader of a key, the other sub-transactions writing
      that key (its read-write dependencies);
    - RBIndex: for the keys of the district-ytd, stock and customer-delivery
      rows, the sub-transactions that both read and write the key, when
      there are at least two of them;
    - conflictIndex: for each sub-transaction, every other one it conflicts
      with on some key.

    Sub-transactions are named by their ids; the indexes start empty, as
    generateBlock declares them. */
module TxIndex {
  import opened Wrappers

  /** An inverted index entry: the ids of the sub-transactions reading and
      writing a key. */
  datatype RWSets = RWSets(readSet: set<string>, writeSet: set<string>)

  /** A sub-transaction of the block: its id and the keys it reads and
      writes. */
  datatype Sub = Sub(id: string, readSet: set<string>, writeSet: set<string>)

  /** std::string::substr(0, n): the first `n` characters, or the whole
      string when it is shorter. */
  function Prefix(s: string, n: nat): (r: string)
    ensures |r| <= n && r <= s
    ensures |s| >= n ==> |r| == n
  {
    if n <= |s| then s[..n] else s
  }

  /** The keys whose conflicts go to the rollback index: those starting
      with "Dytd-", "S-" or "Cdelivery-". */
  predicate Special(key: string) {
    Prefix(key, 5) == "Dytd-" || Prefix(key, 2) == "S-" || Prefix(key, 10) == "Cdelivery-"
  }

  /** The test is a prefix test. */
  lemma SpecialIsPrefix(key: string)
    ensures Special(key) <==> "Dytd-" <= key || "S-" <= key || "Cdelivery-" <= key
  {
    if "Dytd-" <= key {
      assert Prefix(key, 5) == key[..5];
    }
    if "S-" <= key {
      assert Prefix(key, 2) == key[..2];
    }
    if "Cdelivery-" <= key {
      assert Prefix(key, 10) == key[..10];
    }
  }

  /** A key with writers that is not special feeds RWIndex. */
  predicate Feeds(inv: map<string, RWSets>, key: string)
    requires key in inv
  {
    inv[key].writeSet != {} && !Special(key)
  }

  /** A key with writers that is special feeds RBIndex when at least two
      sub-transactions both read and write it. */
  predicate Rolls(inv: map<string, RWSets>, key: string)
    requires key in inv
  {
    inv[key].writeSet != {} && Special(key) && |inv[key].readSet * inv[key].writeSet| > 1
  }

  // ---------------------------------------------------------------------
  // The indexes, as functions of the keys of the inverted index visited

  /** The readers of the visited keys that feed RWIndex: the entries
      RWIndex gets. */
  function Readers(inv: map<string, RWSets>, keys: set<string>): set<string> {
    set k, r | k in keys && k in inv && Feeds(inv, k) && r in inv[k].readSet :: r
  }

  /** The writers, other than `r`, of the visited keys feeding RWIndex that
      `r` reads. */
  function WritersFor(inv: map<string, RWSets>, keys: set<string>, r: string): set<string> {
    set k, w | k in keys && k in inv && Feeds(inv, k) && r in inv[k].readSet && w in inv[k].writeSet && w != r :: w
  }

  /** RWIndex after the visited keys. */
  function RWIndexOf(inv: map<string, RWSets>, keys: set<string>): map<string, set<string>> {
    map r | r in Readers(inv, keys) :: WritersFor(inv, keys, r)
  }

  /** RBIndex after the visited keys. */
  function RBIndexOf(inv: map<string, RWSets>, keys: set<string>): map<string, set<string>> {
    map k | k in keys && k in inv && Rolls(inv, k) :: inv[k].readSet * inv[k].writeSet
  }

  /** RWIndex halfway through the readers of `key`: the readers in `done`
      have gained its writers other than themselves. */
  function RWIndexPart(inv: map<string, RWSets>, keys: set<string>, key: string, done: set<string>): map<string, set<string>>
    requires key in inv
  {
    map r | r in Readers(inv, keys) + done :: WritersFor(inv, keys, r) + (if r in done then inv[key].writeSet - {r} else {})
  }

  /** m_unConflictTxMap-style lookup: an absent entry reads as empty. */
  function Get(m: map<string, set<string>>, id: string): set<string> {
    if id in m then m[id] else {}
  }

  // ---------------------------------------------------------------------
  // What the indexes mean

  /** Each sub-transaction RWIndex lists for `r` writes a key that `r`
      reads, that key has writers and is not special, and it is never `r`
      itself; conversely every such writer is listed. */
  lemma RWIndexMeaning(inv: map<string, RWSets>, r: string, w: string)
    ensures r in RWIndexOf(inv, inv.Keys) <==> exists k :: k in inv && Feeds(inv, k) && r in inv[k].readSet
    ensures r in RWIndexOf(inv, inv.Keys) ==>
      (w in RWIndexOf(inv, inv.Keys)[r] <==>
         w != r && exists k :: k in inv && Feeds(inv, k) && r in inv[k].readSet && w in inv[k].writeSet)
    ensures r in RWIndexOf(inv, inv.Keys) ==> r !in RWIndexOf(inv, inv.Keys)[r]
  {
    var keys := inv.Keys;
    if exists k :: k in inv && Feeds(inv, k) && r in inv[k].readSet {
      var k :| k in inv && Feeds(inv, k) && r in inv[k].readSet;
      assert r in Readers(inv, keys);
    }
    if r in RWIndexOf(inv, keys) && w != r && exists k :: k in inv && Feeds(inv, k) && r in inv[k].readSet && w in inv[k].writeSet {
      var k :| k in inv && Feeds(inv, k) && r in inv[k].readSet && w in inv[k].writeSet;
      assert w in WritersFor(inv, keys, r);
    }
  }

  /** Each RBIndex entry is a special key with writers, and holds the two
      or more sub-transactions that both read and write it; keys feed
      RWIndex or RBIndex, never both. */
  lemma RBIndexMeaning(inv: map<string, RWSets>, key: string)
    ensures key in RBIndexOf(inv, inv.Keys) <==> key in inv && Rolls(inv, key)
    ensures key in RBIndexOf(inv, inv.Keys) ==>
      && |RBIndexOf(inv, inv.Keys)[key]| >= 2
      && (forall x :: x in RBIndexOf(inv, inv.Keys)[key] <==> x in inv[key].readSet && x in inv[key].writeSet)
    ensures key in inv ==> !(Feeds(inv, key) && Rolls(inv, key))
  {
  }

  // ---------------------------------------------------------------------
  // Steps of the loops

  /** Visiting one more key. */
  lemma RBIndexStep(inv: map<string, RWSets>, keys: set<string>, key: string)
    requires key in inv && key !in keys
    ensures RBIndexOf(inv, keys + {key}) ==
      if Rolls(inv, key) then RBIndexOf(inv, keys)[key := inv[key].readSet * inv[key].writeSet] else RBIndexOf(inv, keys)
  {
  }

  /** A key that does not feed RWIndex leaves it as it was. */
  lemma RWIndexSkip(inv: map<string, RWSets>, keys: set<string>, key: string)
    requires key in inv && !Feeds(inv, key)
    ensures RWIndexOf(inv, keys + {key}) == RWIndexOf(inv, keys)
  {
    assert Readers(inv, keys + {key}) == Readers(inv, keys);
    forall r | r in Readers(inv, keys)
      ensures WritersFor(inv, keys + {key}, r) == WritersFor(inv, keys, r)
    {
    }
  }

  /** A key nobody writes changes neither index. */
  lemma NoWritersSkipped(inv: map<string, RWSets>, keys: set<string>, key: string)
    requires key in inv && key !in keys && inv[key].writeSet == {}
    ensures RWIndexOf(inv, keys + {key}) == RWIndexOf(inv, keys)
    ensures RBIndexOf(inv, keys + {key}) == RBIndexOf(inv, keys)
  {
    RWIndexSkip(inv, keys, key);
    RBIndexStep(inv, keys, key);
  }

  /** No reader of `key` done yet: RWIndex as after the visited keys. */
  lemma RWIndexPartNone(inv: map<string, RWSets>, keys: set<string>, key: string)
    requires key in inv
    ensures RWIndexPart(inv, keys, key, {}) == RWIndexOf(inv, keys)
  {
    var part, whole := RWIndexPart(inv, keys, key, {}), RWIndexOf(inv, keys);
    assert part.Keys == whole.Keys by {
      assert Readers(inv, keys) + {} == Readers(inv, keys);
    }
    forall r | r in part
      ensures part[r] == whole[r]
    {
    }
  }

  /** One more reader of `key` done. */
  lemma RWIndexPartStep(inv: map<string, RWSets>, keys: set<string>, key: string, done: set<string>, r: string)
    requires key in inv && r !in done
    ensures var before := RWIndexPart(inv, keys, key, done);
      RWIndexPart(inv, keys, key, done + {r}) == before[r := (Get(before, r) + inv[key].writeSet) - {r}]
  {
    var before := RWIndexPart(inv, keys, key, done);
    var after := RWIndexPart(inv, keys, key, done + {r});
    var expected := before[r := (Get(before, r) + inv[key].writeSet) - {r}];
    assert after.Keys == expected.Keys;
    forall x | x in after
      ensures after[x] == expected[x]
    {
      if x == r {
        assert r !in Get(before, r);
      }
    }
  }

  /** All readers of a key that feeds RWIndex done: RWIndex as after
      visiting that key too. */
  lemma RWIndexPartAll(inv: map<string, RWSets>, keys: set<string>, key: string)
    requires key in inv && key !in keys && Feeds(inv, key)
    ensures RWIndexPart(inv, keys, key, inv[key].readSet) == RWIndexOf(inv, keys + {key})
  {
    var keys' := keys + {key};
    assert Readers(inv, keys') == Readers(inv, keys) + inv[key].readSet;
    forall r | r in Readers(inv, keys')
      ensures WritersFor(inv, keys', r) ==
        WritersFor(inv, keys, r) + (if r in inv[key].readSet then inv[key].writeSet - {r} else {})
    {
    }
  }

  // ---------------------------------------------------------------------
  // generateIndex's loops

  /** The loop collecting the sub-transactions that both read and write a
      key. */
  method ReadAndWrite(e: RWSets) returns (both: set<string>)
    ensures both == e.readSet * e.writeSet
  {
    both := {};
    var rest := e.readSet;
    while rest != {}
      invariant rest <= e.readSet
      invariant both == (e.readSet - rest) * e.writeSet
      decreases |rest|
    {
      var rTx :| rTx in rest;
      if rTx in e.writeSet {
        both := both + {rTx};
      }
      rest := rest - {rTx};
    }
  }

  /** The loop over the readers of a key feeding RWIndex: each gains the
      key's writers, then loses itself. */
  method AddWriters(inv: map<string, RWSets>, keys: set<string>, key: string, rw: map<string, set<string>>)
    returns (rw': map<string, set<string>>)
    requires key in inv && key !in keys && Feeds(inv, key)
    requires rw == RWIndexOf(inv, keys)
    ensures rw' == RWIndexOf(inv, keys + {key})
  {
    var e := inv[key];
    rw' := rw;
    var rest := e.readSet;
    ghost var done: set<string> := {};
    RWIndexPartNone(inv, keys, key);
    while rest != {}
      invariant rest <= e.readSet && done == e.readSet - rest
      invariant rw' == RWIndexPart(inv, keys, key, done)
      decreases |rest|
    {
      var rTx :| rTx in rest;
      RWIndexPartStep(inv, keys, key, done, rTx);
      var writers := Get(rw', rTx) + e.writeSet;
      rw' := rw'[rTx := writers - {rTx}];
      done := done + {rTx};
      rest := rest - {rTx};
    }
    assert done == e.readSet;
    RWIndexPartAll(inv, keys, key);
  }

  /** generateIndex's loop over the inverted index: RWIndex and RBIndex. */
  method IndexInverted(inv: map<string, RWSets>) returns (rw: map<string, set<string>>, rb: map<string, set<string>>)
    ensures rw == RWIndexOf(inv, inv.Keys)
    ensures rb == RBIndexOf(inv, inv.Keys)
  {
    rw, rb := map[], map[];
    var rest := inv.Keys;
    assert inv.Keys - rest == {};
    while rest != {}
      invariant rest <= inv.Keys
      invariant rw == RWIndexOf(inv, inv.Keys - rest)
      invariant rb == RBIndexOf(inv, inv.Keys - rest)
      decreases |rest|
    {
      var key :| key in rest;
      var done := inv.Keys - rest;
      RBIndexStep(inv, done, key);
      var readTxs, writeTxs := inv[key].readSet, inv[key].writeSet;
      if writeTxs == {} {
        RWIndexSkip(inv, done, key);
      } else if Special(key) {
        RWIndexSkip(inv, done, key);
        var intersectTxs := ReadAndWrite(inv[key]);
        if |intersectTxs| > 1 {
          rb := rb[key := intersectTxs];
        }
      } else {
        rw := AddWriters(inv, done, key, rw);
      }
      assert done + {key} == inv.Keys - (rest - {key});
      rest := rest - {key};
    }
    assert inv.Keys - rest == inv.Keys;
  }

  // ---------------------------------------------------------------------
  // conflictIndex: one entry per sub-transaction of the block, in list
  // order (the source keys it by the sub-transaction object itself)

  /** Every key `t` reads or writes is in the inverted index; `at` throws
      otherwise. */
  predicate Known(inv: map<string, RWSets>, t: Sub) {
    t.readSet + t.writeSet <= inv.Keys
  }

  /** The sub-transactions touching a key: its readers and writers. */
  function Touching(e: RWSets): set<string> {
    e.writeSet + e.readSet
  }

  /** The readers and writers of the write keys in `keys`. */
  function OnWrites(inv: map<string, RWSets>, keys: set<string>): set<string> {
    set k, x | k in keys && k in inv && x in Touching(inv[k]) :: x
  }

  /** The writers of the read keys in `keys`. */
  function OnReads(inv: map<string, RWSets>, keys: set<string>): set<string> {
    set k, x | k in keys && k in inv && x in inv[k].writeSet :: x
  }

  /** conflictIndex[t]: the sub-transactions writing or reading what `t`
      writes and those writing what `t` reads, `t` itself excluded. */
  function ConflictOf(inv: map<string, RWSets>, t: Sub): set<string> {
    (OnWrites(inv, t.writeSet) + OnReads(inv, t.readSet)) - {t.id}
  }

  lemma OnWritesStep(inv: map<string, RWSets>, keys: set<string>, k: string)
    requires k in inv
    ensures OnWrites(inv, keys + {k}) == OnWrites(inv, keys) + Touching(inv[k])
  {
  }

  lemma OnReadsStep(inv: map<string, RWSets>, keys: set<string>, k: string)
    requires k in inv
    ensures OnReads(inv, keys + {k}) == OnReads(inv, keys) + inv[k].writeSet
  {
  }

  /** The write-key loop of conflictIndex for one sub-transaction; `None`
      when a key is missing from the inverted index. */
  method CollectOnWrites(inv: map<string, RWSets>, keys: set<string>) returns (r: Option<set<string>>)
    ensures r.None? <==> !(keys <= inv.Keys)
    ensures r.Some? ==> r.value == OnWrites(inv, keys)
  {
    var acc: set<string> := {};
    var rest := keys;
    while rest != {}
      invariant rest <= keys && keys - rest <= inv.Keys
      invariant acc == OnWrites(inv, keys - rest)
      decreases |rest|
    {
      var wKey :| wKey in rest;
      if wKey !in inv {
        return None;
      }
      OnWritesStep(inv, keys - rest, wKey);
      acc := acc + inv[wKey].writeSet;
      acc := acc + inv[wKey].readSet;
      assert acc == OnWrites(inv, keys - rest) + Touching(inv[wKey]);
      assert (keys - rest) + {wKey} == keys - (rest - {wKey});
      rest := rest - {wKey};
    }
    assert keys - rest == keys;
    r := Some(acc);
  }

  /** The read-key loop of conflictIndex for one sub-transaction. */
  method CollectOnReads(inv: map<string, RWSets>, keys: set<string>) returns (r: Option<set<string>>)
    ensures r.None? <==> !(keys <= inv.Keys)
    ensures r.Some? ==> r.value == OnReads(inv, keys)
  {
    var acc: set<string> := {};
    var rest := keys;
    while rest != {}
      invariant rest <= keys && keys - rest <= inv.Keys
      invariant acc == OnReads(inv, keys - rest)
      decreases |rest|
    {
      var rKey :| rKey in rest;
      if rKey !in inv {
        return None;
      }
      OnReadsStep(inv, keys - rest, rKey);
      acc := acc + inv[rKey].writeSet;
      assert (keys - rest) + {rKey} == keys - (rest - {rKey});
      rest := rest - {rKey};
    }
    assert keys - rest == keys;
    r := Some(acc);
  }

  /** conflictIndex[t] for one sub-transaction. */
  method ConflictEntry(inv: map<string, RWSets>, t: Sub) returns (r: Option<set<string>>)
    ensures r.None? <==> !Known(inv, t)
    ensures r.Some? ==> r.value == ConflictOf(inv, t)
  {
    var onWrites := CollectOnWrites(inv, t.writeSet);
    if onWrites.None? {
      return None;
    }
    var onReads := CollectOnReads(inv, t.readSet);
    if onReads.None? {
      return None;
    }
    r := Some((onWrites.value + onReads.value) - {t.id});
  }

  /** Some sub-transaction among the first `n` touches a key the inverted
      index lacks. */
  predicate SomeUnknown(inv: map<string, RWSets>, subs: seq<Sub>, n: nat)
    requires n <= |subs|
  {
    exists i :: 0 <= i < n && !Known(inv, subs[i])
  }

  /** generateIndex's loop over the block's sub-transactions: the conflict
      set of each, or `None` when the inverted index lacks one of their
      keys. */
  method ConflictIndex(inv: map<string, RWSets>, subs: seq<Sub>) returns (r: Option<seq<set<string>>>)
    ensures r.None? <==> SomeUnknown(inv, subs, |subs|)
    ensures r.Some? ==> |r.value| == |subs| && forall i :: 0 <= i < |subs| ==> r.value[i] == ConflictOf(inv, subs[i])
  {
    var index: seq<set<string>> := [];
    for i := 0 to |subs|
      invariant !SomeUnknown(inv, subs, i)
      invariant |index| == i && forall k :: 0 <= k < i ==> index[k] == ConflictOf(inv, subs[k])
    {
      var entry := ConflictEntry(inv, subs[i]);
      if entry.None? {
        assert !Known(inv, subs[i]);
        return None;
      }
      index := index + [entry.value];
    }
    r := Some(index);
  }

  /** The three indexes generateIndex fills in. */
  datatype Indexes = Indexes(rwIndex: map<string, set<string>>, conflictIndex: seq<set<string>>,
                             rbIndex: map<string, set<string>>)

  /** generateIndex: RWIndex and RBIndex from the inverted index, then
      conflictIndex; `None` when the inverted index lacks a key some
      sub-transaction touches (the lookup throws and no index is kept). */
  method GenerateIndex(subs: seq<Sub>, inv: map<string, RWSets>) returns (r: Option<Indexes>)
    ensures r.None? <==> SomeUnknown(inv, subs, |subs|)
    ensures r.Some? ==>
      && r.value.rwIndex == RWIndexOf(inv, inv.Keys)
      && r.value.rbIndex == RBIndexOf(inv, inv.Keys)
      && |r.value.conflictIndex| == |subs|
      && forall i :: 0 <= i < |subs| ==> r.value.conflictIndex[i] == ConflictOf(inv, subs[i])
  {
    var rw, rb := IndexInverted(inv);
    var conflicts := ConflictIndex(inv, subs);
    if conflicts.None? {
      return None;
    }
    r := Some(Indexes(rw, conflicts.value, rb));
  }

  // ---------------------------------------------------------------------
  // What conflictIndex means, when the inverted index is that of the block

  /** The ids of the sub-transactions of the block reading `key`. */
  function ReadersOf(subs: seq<Sub>, key: string): set<string> {
    set j | 0 <= j < |subs| && key in subs[j].readSet :: subs[j].id
  }

  /** The ids of the sub-transactions of the block writing `key`. */
  function WritersOf(subs: seq<Sub>, key: string): set<string> {
    set j | 0 <= j < |subs| && key in subs[j].writeSet :: subs[j].id
  }

  /** `inv` is the inverted index of the block: each of its keys maps to
      the block's readers and writers of that key, and every key the block
      touches is in it. */
  predicate Inverts(inv: map<string, RWSets>, subs: seq<Sub>) {
    && (forall k :: k in inv ==> inv[k] == RWSets(ReadersOf(subs, k), WritersOf(subs, k)))
    && (forall j :: 0 <= j < |subs| ==> Known(inv, subs[j]))
  }

  /** Two sub-transactions conflict: one writes what the other reads or
      writes, or reads what the other writes. */
  predicate Conflicting(t: Sub, s: Sub) {
    || t.writeSet * s.readSet != {}
    || t.writeSet * s.writeSet != {}
    || t.readSet * s.writeSet != {}
  }

  /** On the block's own inverted index, conflictIndex lists for a
      sub-transaction exactly the other ids of sub-transactions it
      conflicts with. */
  lemma ConflictOfMeaning(inv: map<string, RWSets>, subs: seq<Sub>, i: nat, x: string)
    requires Inverts(inv, subs) && i < |subs|
    ensures x in ConflictOf(inv, subs[i]) <==>
      x != subs[i].id && exists j :: 0 <= j < |subs| && subs[j].id == x && Conflicting(subs[i], subs[j])
  {
    var t := subs[i];
    if x in ConflictOf(inv, t) {
      if x in OnWrites(inv, t.writeSet) {
        var k :| k in t.writeSet && k in inv && x in Touching(inv[k]);
        if x in inv[k].writeSet {
          var j :| 0 <= j < |subs| && k in subs[j].writeSet && subs[j].id == x;
          assert k in t.writeSet * subs[j].writeSet;
        } else {
          var j :| 0 <= j < |subs| && k in subs[j].readSet && subs[j].id == x;
          assert k in t.writeSet * subs[j].readSet;
        }
      } else {
        var k :| k in t.readSet && k in inv && x in inv[k].writeSet;
        var j :| 0 <= j < |subs| && k in subs[j].writeSet && subs[j].id == x;
        assert k in t.readSet * subs[j].writeSet;
      }
    }
    if x != t.id && exists j :: 0 <= j < |subs| && subs[j].id == x && Conflicting(t, subs[j]) {
      var j :| 0 <= j < |subs| && subs[j].id == x && Conflicting(t, subs[j]);
      var s := subs[j];
      assert Known(inv, t) && Known(inv, s);
      if t.writeSet * s.readSet != {} {
        var k :| k in t.writeSet * s.readSet;
        assert x in ReadersOf(subs, k);
        assert x in Touching(inv[k]);
        assert x in OnWrites(inv, t.writeSet);
      } else if t.writeSet * s.writeSet != {} {
        var k :| k in t.writeSet * s.writeSet;
        assert x in WritersOf(subs, k);
        assert x in Touching(inv[k]);
        assert x in OnWrites(inv, t.writeSet);
      } else {
        var k :| k in t.readSet * s.writeSet;
        assert x in WritersOf(subs, k);
        assert x in OnReads(inv, t.readSet);
      }
    }
  }

  /** No two sub-transactions of the block share an id. */
  predicate DistinctIds(subs: seq<Sub>) {
    forall a, b :: 0 <= a < b < |subs| ==> subs[a].id != subs[b].id
  }

  /** With distinct ids, conflictIndex is symmetric. */
  lemma ConflictOfSymmetric(inv: map<string, RWSets>, subs: seq<Sub>, i: nat, j: nat)
    requires Inverts(inv, subs) && DistinctIds(subs) && i < |subs| && j < |subs|
    ensures subs[j].id in ConflictOf(inv, subs[i]) ==> subs[i].id in ConflictOf(inv, subs[j])
  {
    if subs[j].id in ConflictOf(inv, subs[i]) {
      ConflictOfMeaning(inv, subs, i, subs[j].id);
      var m :| 0 <= m < |subs| && subs[m].id == subs[j].id && Conflicting(subs[i], subs[m]);
      assert m == j;
      assert subs[j].readSet * subs[i].writeSet == subs[i].writeSet * subs[j].readSet;
      assert subs[j].writeSet * subs[i].writeSet == subs[i].writeSet * subs[j].writeSet;
      assert subs[j].writeSet * subs[i].readSet == subs[i].readSet * subs[j].writeSet;
      ConflictOfMeaning(inv, subs, j, subs[i].id);
    }
  }

  /** With distinct ids, the read-write dependencies RWIndex records for a
      sub-transaction are among its conflicts. */
  lemma RWIndexWithinConflicts(inv: map<string, RWSets>, subs: seq<Sub>, i: nat)
    requires Inverts(inv, subs) && DistinctIds(subs) && i < |subs|
    ensures subs[i].id in RWIndexOf(inv, inv.Keys) ==> RWIndexOf(inv, inv.Keys)[subs[i].id] <= ConflictOf(inv, subs[i])
  {
    var r := subs[i].id;
    if r in RWIndexOf(inv, inv.Keys) {
      forall w | w in RWIndexOf(inv, inv.Keys)[r]
        ensures w in ConflictOf(inv, subs[i])
      {
        RWIndexMeaning(inv, r, w);
        var k :| k in inv && Feeds(inv, k) && r in inv[k].readSet && w in inv[k].writeSet;
        var j :| 0 <= j < |subs| && k in subs[j].readSet && subs[j].id == r;
        assert j == i;
        assert w in OnReads(inv, subs[i].readSet);
      }
    }
  }
}
