/** The index side of Loom's minimum-weight rollback
    (protocol/loom/MinWRollback.cpp): the read-write index built from the
    inverted key index, the key that files a hyper-vertex under its pair of
    minimum ids, the ancestor test on sub-transaction ids, and the fast
    rollback that reads the victims straight off the rollback index.

    Sub-transactions are named by their string ids (`m_id`).  The source
    hashes a `Vertex::Ptr` by its address (common/Vertex.h:20-25) and
    compares by `m_id`; naming each sub-transaction by its id assumes one
    vertex object per id, so the two agree. */
module MinWIndex {
  import opened Wrappers
  import opened LoomOrder

  /** protocol::RWSets: the sub-transactions that read and that write one key. */
  datatype RWSets = RWSets(readSet: set<string>, writeSet: set<string>)

  /** m_RWIndex[r], an absent entry read as empty. */
  function Deps(rwIndex: map<string, set<string>>, r: string): set<string> {
    if r in rwIndex then rwIndex[r] else {}
  }

  /** `w` is in m_RWIndex[r]. */
  predicate DependsOn(rwIndex: map<string, set<string>>, r: string, w: string) {
    w in Deps(rwIndex, r)
  }

  /** Through a key of `keys`, `r` reads what `w` writes. */
  ghost predicate ReadsFrom(invertedIndex: map<string, RWSets>, keys: set<string>, r: string, w: string) {
    exists k :: k in keys && k in invertedIndex && r in invertedIndex[k].readSet && w in invertedIndex[k].writeSet
  }

  /** `r` reads a key of `keys` that somebody writes, so onWarm2RWIndex visits
      its entry. */
  ghost predicate Touched(invertedIndex: map<string, RWSets>, keys: set<string>, r: string) {
    exists k :: k in keys && k in invertedIndex && r in invertedIndex[k].readSet && invertedIndex[k].writeSet != {}
  }

  /** The entries of `rwIndex` after the keys of `keys` are indexed: a
      visited reader depends on everyone it reads from, never on itself; the
      other entries are as they were. */
  ghost predicate Indexed(invertedIndex: map<string, RWSets>, keys: set<string>,
                          rwIndex: map<string, set<string>>, rwIndex': map<string, set<string>>)
  {
    && (forall r :: r in rwIndex' <==> r in rwIndex || Touched(invertedIndex, keys, r))
    && (forall r, w :: DependsOn(rwIndex', r, w) <==>
          if Touched(invertedIndex, keys, r) then w != r && (DependsOn(rwIndex, r, w) || ReadsFrom(invertedIndex, keys, r, w))
          else DependsOn(rwIndex, r, w))
  }

  /** `rwIndex'` is `rwIndex` after every reader of `readers` has gained the
      `writers` and lost itself. */
  ghost predicate Added(rwIndex: map<string, set<string>>, readers: set<string>, writers: set<string>,
                        rwIndex': map<string, set<string>>)
  {
    && (forall r :: r in rwIndex' <==> r in rwIndex || r in readers)
    && (forall r, w | r in readers :: DependsOn(rwIndex', r, w) <==> w != r && (DependsOn(rwIndex, r, w) || w in writers))
    && (forall r, w | r !in readers :: DependsOn(rwIndex', r, w) <==> DependsOn(rwIndex, r, w))
  }

  /** One more reader `rTx` gains the writers and loses itself. */
  lemma AddOne(rwIndex: map<string, set<string>>, done: set<string>, writers: set<string>,
               rwIndex': map<string, set<string>>, rTx: string)
    requires Added(rwIndex, done, writers, rwIndex') && rTx !in done
    ensures Added(rwIndex, done + {rTx}, writers, rwIndex'[rTx := (Deps(rwIndex', rTx) + writers) - {rTx}])
  {
    var next := rwIndex'[rTx := (Deps(rwIndex', rTx) + writers) - {rTx}];
    assert Deps(next, rTx) == (Deps(rwIndex', rTx) + writers) - {rTx};
    forall r | r != rTx
      ensures Deps(next, r) == Deps(rwIndex', r)
    {
    }
  }

  /** The readers loop of onWarm2RWIndex for one key with writers: each
      reader gains the writers and loses itself. */
  method AddReaders(rwIndex: map<string, set<string>>, readers: set<string>, writers: set<string>)
    returns (rwIndex': map<string, set<string>>)
    ensures Added(rwIndex, readers, writers, rwIndex')
  {
    rwIndex' := rwIndex;
    var rest := readers;
    while rest != {}
      invariant rest <= readers
      invariant Added(rwIndex, readers - rest, writers, rwIndex')
      decreases rest
    {
      var rTx :| rTx in rest;
      AddOne(rwIndex, readers - rest, writers, rwIndex', rTx);
      assert readers - rest + {rTx} == readers - (rest - {rTx});
      rwIndex' := rwIndex'[rTx := (Deps(rwIndex', rTx) + writers) - {rTx}];
      rest := rest - {rTx};
    }
    assert readers - rest == readers;
  }

  /** Indexing key `k` touches exactly its readers, when it has writers, and
      links them to its writers. */
  lemma KeyFacts(invertedIndex: map<string, RWSets>, keys: set<string>, k: string, r: string, w: string)
    requires k in invertedIndex
    ensures Touched(invertedIndex, keys + {k}, r) <==>
              Touched(invertedIndex, keys, r) || (r in invertedIndex[k].readSet && invertedIndex[k].writeSet != {})
    ensures ReadsFrom(invertedIndex, keys + {k}, r, w) <==>
              ReadsFrom(invertedIndex, keys, r, w) || (r in invertedIndex[k].readSet && w in invertedIndex[k].writeSet)
  {
    if Touched(invertedIndex, keys + {k}, r) {
      var k' :| k' in keys + {k} && k' in invertedIndex && r in invertedIndex[k'].readSet && invertedIndex[k'].writeSet != {};
      if k' != k {
        assert Touched(invertedIndex, keys, r);
      }
    }
    if ReadsFrom(invertedIndex, keys + {k}, r, w) {
      var k' :| k' in keys + {k} && k' in invertedIndex && r in invertedIndex[k'].readSet && w in invertedIndex[k'].writeSet;
      if k' != k {
        assert ReadsFrom(invertedIndex, keys, r, w);
      }
    }
  }

  /** Indexing one more key `k` extends what has been indexed. */
  lemma IndexKey(invertedIndex: map<string, RWSets>, keys: set<string>, k: string,
                 rwIndex: map<string, set<string>>, mid: map<string, set<string>>, rwIndex': map<string, set<string>>)
    requires k in invertedIndex && k !in keys
    requires Indexed(invertedIndex, keys, rwIndex, mid)
    requires invertedIndex[k].writeSet == {} ==> rwIndex' == mid
    requires invertedIndex[k].writeSet != {} ==> Added(mid, invertedIndex[k].readSet, invertedIndex[k].writeSet, rwIndex')
    ensures Indexed(invertedIndex, keys + {k}, rwIndex, rwIndex')
  {
    forall r
      ensures r in rwIndex' <==> r in rwIndex || Touched(invertedIndex, keys + {k}, r)
    {
      KeyFacts(invertedIndex, keys, k, r, r);
    }
    forall r, w
      ensures DependsOn(rwIndex', r, w) <==>
                if Touched(invertedIndex, keys + {k}, r) then w != r && (DependsOn(rwIndex, r, w) || ReadsFrom(invertedIndex, keys + {k}, r, w))
                else DependsOn(rwIndex, r, w)
    {
      KeyFacts(invertedIndex, keys, k, r, w);
      if invertedIndex[k].writeSet != {} && r in invertedIndex[k].readSet {
        assert DependsOn(rwIndex', r, w) <==> w != r && (DependsOn(mid, r, w) || w in invertedIndex[k].writeSet);
      } else {
        assert DependsOn(rwIndex', r, w) <==> DependsOn(mid, r, w);
      }
    }
  }

  /** MinWRollback::onWarm2RWIndex: every reader of a key that has writers
      comes to depend on those writers, but never on itself; keys without
      writers add nothing. */
  method OnWarm2RWIndex(invertedIndex: map<string, RWSets>, rwIndex: map<string, set<string>>)
    returns (rwIndex': map<string, set<string>>)
    ensures Indexed(invertedIndex, invertedIndex.Keys, rwIndex, rwIndex')
  {
    rwIndex' := rwIndex;
    var rest := invertedIndex.Keys;
    while rest != {}
      invariant rest <= invertedIndex.Keys
      invariant Indexed(invertedIndex, invertedIndex.Keys - rest, rwIndex, rwIndex')
      decreases rest
    {
      var k :| k in rest;
      var mid := rwIndex';
      if invertedIndex[k].writeSet != {} {
        rwIndex' := AddReaders(rwIndex', invertedIndex[k].readSet, invertedIndex[k].writeSet);
      }
      IndexKey(invertedIndex, invertedIndex.Keys - rest, k, rwIndex, mid, rwIndex');
      assert invertedIndex.Keys - rest + {k} == invertedIndex.Keys - (rest - {k});
      rest := rest - {k};
    }
  }

  /** After indexing from an empty index, no sub-transaction depends on
      itself, and a reader of keys nobody writes has no entry. */
  lemma RWIndexFacts(invertedIndex: map<string, RWSets>, rwIndex': map<string, set<string>>)
    requires Indexed(invertedIndex, invertedIndex.Keys, map[], rwIndex')
    ensures forall r :: !DependsOn(rwIndex', r, r)
    ensures forall r :: r in rwIndex' <==> Touched(invertedIndex, invertedIndex.Keys, r)
    ensures forall r, w :: DependsOn(rwIndex', r, w) <==> w != r && ReadsFrom(invertedIndex, invertedIndex.Keys, r, w)
  {
    forall r, w
      ensures DependsOn(rwIndex', r, w) <==> w != r && ReadsFrom(invertedIndex, invertedIndex.Keys, r, w)
    {
      if ReadsFrom(invertedIndex, invertedIndex.Keys, r, w) {
        var k :| k in invertedIndex.Keys && k in invertedIndex && r in invertedIndex[k].readSet && w in invertedIndex[k].writeSet;
        assert Touched(invertedIndex, invertedIndex.Keys, r);
      }
    }
  }

  /** `needle` occurs in `hay` at position `i`. */
  predicate OccursAt(hay: string, needle: string, i: nat) {
    i + |needle| <= |hay| && hay[i..i + |needle|] == needle
  }

  /** std::string::find from position `from`: the first position at or
      after `from` where `needle` occurs in `hay`, None for npos. */
  function FindFrom(hay: string, needle: string, from: nat): (r: Option<nat>)
    decreases |hay| - from
    ensures r.Some? ==> from <= r.value && OccursAt(hay, needle, r.value)
    ensures r.Some? ==> forall i :: from <= i < r.value ==> !OccursAt(hay, needle, i)
    ensures r.None? ==> forall i :: from <= i ==> !OccursAt(hay, needle, i)
  {
    if from + |needle| > |hay| then None
    else if hay[from..from + |needle|] == needle then Some(from)
    else FindFrom(hay, needle, from + 1)
  }

  /** MinWRollback::isAncester: `v1` is an ancestor of `v2` when `v2.find(v1)`
      is 0. */
  predicate IsAncester(v1: string, v2: string) {
    FindFrom(v2, v1, 0) == Some(0)
  }

  /** The ancestor test is exactly the prefix test on ids. */
  lemma AncesterIsPrefix(v1: string, v2: string)
    ensures IsAncester(v1, v2) <==> v1 <= v2
  {
    if v1 <= v2 {
      assert v2[0..|v1|] == v1;
    }
    if IsAncester(v1, v2) {
      assert v2[0..|v1|] == v1;
    }
  }

  /** C++ `int` and `long long`. */
  newtype int32 = x: int | -0x8000_0000 <= x < 0x8000_0000
  newtype int64 = x: int | -0x8000_0000_0000_0000 <= x < 0x8000_0000_0000_0000

  /** MinWRollback::combine: `a * 1000001LL + b`, which cannot overflow a
      `long long` for `int` operands. */
  function Combine(a: int32, b: int32): int64 {
    (a as int * 1000001 + b as int) as int64
  }

  /** The two ids back from a key, by division by 1000001. */
  function Split(key: int64): (int, int) {
    (key as int / 1000001, key as int % 1000001)
  }

  /** With the second id in [0, 1000001) a key gives its ids back, so two
      different pairs never share a key. */
  lemma CombineInjective(a: int32, b: int32, a': int32, b': int32)
    requires 0 <= b < 1000001 && 0 <= b' < 1000001
    ensures Split(Combine(a, b)) == (a as int, b as int)
    ensures Combine(a, b) == Combine(a', b') ==> a == a' && b == b'
  {
    var k := a as int * 1000001 + b as int;
    assert k / 1000001 == a as int && k % 1000001 == b as int by {
      assert k == a as int * 1000001 + b as int;
    }
    var k' := a' as int * 1000001 + b' as int;
    assert k' / 1000001 == a' as int && k' % 1000001 == b' as int by {
      assert k' == a' as int * 1000001 + b' as int;
    }
  }

  /** Without the bound on the second id, keys collide. */
  lemma CombineNeedsBound()
    ensures Combine(1, 1000001) == Combine(2, 0)
  {
  }

  /** `key.substr(0, 10) == "Cdelivery-"`: substr clips at the end of a
      shorter key. */
  predicate IsDelivery(key: string) {
    key[..if |key| < 10 then |key| else 10] == "Cdelivery-"
  }

  /** `x` is the first element of `s` under `VertexCompare` (ascending id). */
  predicate IsLeast(s: set<string>, x: string) {
    x in s && forall y :: y in s && y != x ==> StrLess(x, y)
  }

  lemma {:induction false} LeastExists(s: set<string>)
    requires s != {}
    ensures exists x :: IsLeast(s, x)
    decreases s
  {
    var x :| x in s;
    var rest := s - {x};
    if rest == {} {
      assert s == {x};
      assert IsLeast(s, x);
    } else {
      LeastExists(rest);
      var y :| IsLeast(rest, y);
      StrLessTotal(x, y);
      if StrLess(x, y) {
        forall z | z in s && z != x
          ensures StrLess(x, z)
        {
          if z != y {
            StrLessTransitive(x, y, z);
          }
        }
        assert IsLeast(s, x);
      } else {
        assert IsLeast(s, y);
      }
    }
  }

  /** rbSet.begin(). */
  method Least(s: set<string>) returns (x: string)
    requires s != {}
    ensures IsLeast(s, x)
  {
    LeastExists(s);
    x :| IsLeast(s, x);
  }

  /** cascadeVertices of a sub-transaction, an unknown one read as empty. */
  function Cascade(cascade: map<string, set<string>>, v: string): set<string> {
    if v in cascade then cascade[v] else {}
  }

  /** What fastRollback takes for element `e` of the entry at `key`: `e`
      itself, or for a "Cdelivery-" key each sub-transaction of its cascade. */
  predicate Taken(key: string, cascade: map<string, set<string>>, e: string, x: string) {
    if IsDelivery(key) then x in Cascade(cascade, e) else x == e
  }

  /** What fastRollback takes from one rollback-index entry: each element after
      the first, or, for a "Cdelivery-" key, the cascade of each such
      element. */
  ghost predicate VictimOf(key: string, rbSet: set<string>, cascade: map<string, set<string>>, x: string) {
    exists e :: e in rbSet && !IsLeast(rbSet, e) && Taken(key, cascade, e, x)
  }

  /** The elements of a list. */
  function Elements(s: seq<string>): set<string> {
    set x | x in s
  }

  lemma ElementsAppend(a: seq<string>, b: seq<string>)
    ensures Elements(a + b) == Elements(a) + Elements(b)
  {
    forall x | x in Elements(a + b)
      ensures x in Elements(a) + Elements(b)
    {
      var i :| 0 <= i < |a + b| && (a + b)[i] == x;
      if i >= |a| {
        assert b[i - |a|] == x;
      }
    }
    forall x | x in Elements(a) + Elements(b)
      ensures x in Elements(a + b)
    {
      if x in Elements(b) {
        var i :| 0 <= i < |b| && b[i] == x;
        assert (a + b)[|a| + i] == x;
      }
    }
  }

  /** std::copy of a whole set onto the back of `list`. */
  method AppendAll(list: seq<string>, s: set<string>) returns (list': seq<string>)
    ensures list <= list' && Elements(list'[|list|..]) == s && |list'| == |list| + |s|
  {
    list' := list;
    var rest := s;
    while rest != {}
      invariant rest <= s
      invariant list <= list' && Elements(list'[|list|..]) == s - rest && |list'| == |list| + |s - rest|
      decreases rest
    {
      var x :| x in rest;
      assert list'[|list|..] + [x] == (list' + [x])[|list|..];
      assert s - (rest - {x}) == (s - rest) + {x};
      list' := list' + [x];
      rest := rest - {x};
    }
  }

  /** `x` was taken for one of the entry elements in `done`. */
  ghost predicate FromEntry(key: string, cascade: map<string, set<string>>, done: set<string>, x: string) {
    exists e :: e in done && Taken(key, cascade, e, x)
  }

  /** Appending what element `e` gives extends the entry's copy by `e`. */
  lemma EntryStep(key: string, cascade: map<string, set<string>>, done: set<string>, e: string,
                  prefix: seq<string>, appended: seq<string>)
    requires forall x :: x in Elements(prefix) <==> FromEntry(key, cascade, done, x)
    requires forall x :: x in Elements(appended) <==> Taken(key, cascade, e, x)
    ensures forall x :: x in Elements(prefix + appended) <==> FromEntry(key, cascade, done + {e}, x)
  {
    ElementsAppend(prefix, appended);
    forall x
      ensures x in Elements(prefix + appended) <==> FromEntry(key, cascade, done + {e}, x)
    {
      if FromEntry(key, cascade, done + {e}, x) {
        var e' :| e' in done + {e} && Taken(key, cascade, e', x);
        if e' != e {
          assert FromEntry(key, cascade, done, x);
        }
      }
      if x in Elements(appended) {
        assert FromEntry(key, cascade, done + {e}, x);
      }
      if FromEntry(key, cascade, done, x) {
        var e' :| e' in done && Taken(key, cascade, e', x);
        assert FromEntry(key, cascade, done + {e}, x);
      }
    }
  }

  /** All entry elements but the least are exactly the victims of the entry. */
  lemma EntryVictims(key: string, rbSet: set<string>, cascade: map<string, set<string>>, first: string)
    requires IsLeast(rbSet, first)
    ensures forall x :: FromEntry(key, cascade, rbSet - {first}, x) <==> VictimOf(key, rbSet, cascade, x)
  {
    StrLessIrreflexive(first);
    forall x
      ensures FromEntry(key, cascade, rbSet - {first}, x) <==> VictimOf(key, rbSet, cascade, x)
    {
      if VictimOf(key, rbSet, cascade, x) {
        var e :| e in rbSet && !IsLeast(rbSet, e) && Taken(key, cascade, e, x);
        assert e in rbSet - {first};
      }
      if FromEntry(key, cascade, rbSet - {first}, x) {
        var e :| e in rbSet - {first} && Taken(key, cascade, e, x);
        StrLessTotal(e, first);
        StrLessIrreflexive(e);
        assert !IsLeast(rbSet, e);
      }
    }
  }

  /** The copy for one rollback-index entry. */
  method AppendEntry(list: seq<string>, key: string, rbSet: set<string>, cascade: map<string, set<string>>)
    returns (list': seq<string>)
    requires rbSet != {}
    ensures list <= list'
    ensures forall x :: x in Elements(list'[|list|..]) <==> VictimOf(key, rbSet, cascade, x)
  {
    var first := Least(rbSet);
    list' := list;
    var rest := rbSet - {first};
    while rest != {}
      invariant rest <= rbSet - {first}
      invariant list <= list'
      invariant forall x :: x in Elements(list'[|list|..]) <==> FromEntry(key, cascade, rbSet - {first} - rest, x)
      decreases rest
    {
      var e :| e in rest;
      var before := list';
      if IsDelivery(key) {
        list' := AppendAll(list', Cascade(cascade, e));
      } else {
        list' := list' + [e];
        assert list'[|before|..] == [e];
      }
      assert list'[|list|..] == before[|list|..] + list'[|before|..];
      EntryStep(key, cascade, rbSet - {first} - rest, e, before[|list|..], list'[|before|..]);
      assert rbSet - {first} - rest + {e} == rbSet - {first} - (rest - {e});
      rest := rest - {e};
    }
    EntryVictims(key, rbSet, cascade, first);
  }

  /** MinWRollback::fastRollback: for every key of the rollback index, all but
      the first sub-transaction (in id order) are appended to `rbList`, or
      their cascades for a "Cdelivery-" key.  Every set of the index is
      non-empty: the source steps past its first element unchecked. */
  method FastRollback(rbIndex: map<string, set<string>>, cascade: map<string, set<string>>, rbList: seq<string>)
    returns (rbList': seq<string>)
    requires forall key :: key in rbIndex ==> rbIndex[key] != {}
    ensures rbList <= rbList'
    ensures forall x :: x in Elements(rbList'[|rbList|..]) <==>
              exists key :: key in rbIndex && VictimOf(key, rbIndex[key], cascade, x)
  {
    rbList' := rbList;
    var rest := rbIndex.Keys;
    while rest != {}
      invariant rest <= rbIndex.Keys
      invariant rbList <= rbList'
      invariant forall x :: x in Elements(rbList'[|rbList|..]) <==>
                  exists key :: key in rbIndex.Keys - rest && VictimOf(key, rbIndex[key], cascade, x)
      decreases rest
    {
      var key :| key in rest;
      var before := rbList';
      rbList' := AppendEntry(rbList', key, rbIndex[key], cascade);
      assert rbList'[|rbList|..] == before[|rbList|..] + rbList'[|before|..];
      ElementsAppend(before[|rbList|..], rbList'[|before|..]);
      var done := rbIndex.Keys - rest;
      forall x
        ensures x in Elements(rbList'[|rbList|..]) <==>
                exists key' :: key' in done + {key} && VictimOf(key', rbIndex[key'], cascade, x)
      {
        if x in Elements(rbList'[|before|..]) {
          assert key in done + {key} && VictimOf(key, rbIndex[key], cascade, x);
        }
        if x in Elements(before[|rbList|..]) {
          var key' :| key' in done && VictimOf(key', rbIndex[key'], cascade, x);
          assert key' in done + {key};
        }
        if exists key' :: key' in done + {key} && VictimOf(key', rbIndex[key'], cascade, x) {
          var key' :| key' in done + {key} && VictimOf(key', rbIndex[key'], cascade, x);
          if key' != key {
            assert key' in done;
          }
        }
      }
      assert done + {key} == rbIndex.Keys - (rest - {key});
      rest := rest - {key};
    }
  }
}
