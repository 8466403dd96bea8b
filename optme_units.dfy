/** OptME's address-based conflict graph (protocol/optme/utils.hpp).  Every
    read or write of a transaction becomes a unit at its address; the units
    of an address are sequenced read side first, then write side, which may
    abort transactions; the addresses are visited by rank.  Units hold a
    pointer to their transaction: the model names the transaction by its id
    and keeps the fields the units update through that pointer (the sequence
    and the abort flag) in one `Txs` object. */
module OptMEUnits {
  import LoomOrder

  datatype UnitType = Read | Write

  /** A unit: one access of one transaction (by id) to one address. */
  datatype Unit = Unit(tx: nat, unitType: UnitType, address: string, coLocated: bool, wrDependencies: nat)

  /** The transaction fields the units reach through their pointer: the
      sequence (0: not sequenced yet) and the abort flag. */
  datatype TxState = TxState(seqs: map<nat, nat>, aborted: set<nat>)

  function SeqOf(st: TxState, t: nat): nat {
    if t in st.seqs then st.seqs[t] else 0
  }

  /** Unit::is_sorted. */
  predicate IsSorted(st: TxState, u: Unit) {
    SeqOf(st, u.tx) > 0
  }

  /** No two units of one list belong to the same transaction (a transaction
      has one unit per address and access kind). */
  predicate DistinctTxs(units: seq<Unit>) {
    forall i, j :: 0 <= i < j < |units| ==> units[i].tx != units[j].tx
  }

  /** The first half of `partition_copy`: the sorted units, in order. */
  function SortedUnits(units: seq<Unit>, st: TxState): (r: seq<Unit>)
    ensures |r| <= |units|
  {
    if units == [] then []
    else (if IsSorted(st, units[0]) then [units[0]] else []) + SortedUnits(units[1..], st)
  }

  /** The second half of `partition_copy`: the unsorted units, in order. */
  function UnsortedUnits(units: seq<Unit>, st: TxState): (r: seq<Unit>)
    ensures |r| <= |units|
  {
    if units == [] then []
    else (if IsSorted(st, units[0]) then [] else [units[0]]) + UnsortedUnits(units[1..], st)
  }

  /** The sorted units are exactly the units whose transaction has a
      sequence, and the unsorted ones the others. */
  lemma {:induction false} PartitionMembers(units: seq<Unit>, st: TxState, u: Unit)
    ensures u in SortedUnits(units, st) <==> u in units && IsSorted(st, u)
    ensures u in UnsortedUnits(units, st) <==> u in units && !IsSorted(st, u)
  {
    if units != [] {
      PartitionMembers(units[1..], st, u);
      assert u in units <==> u == units[0] || u in units[1..];
    }
  }

  /** Sorting only moves the sorted units in front: the units are the same. */
  lemma {:induction false} PartitionKeepsUnits(units: seq<Unit>, st: TxState)
    ensures multiset(SortedUnits(units, st) + UnsortedUnits(units, st)) == multiset(units)
  {
    if units != [] {
      PartitionKeepsUnits(units[1..], st);
      PartitionHead(units, st);
      HeadMultiset(units);
    }
  }

  /** Both sides of the partition of a list with a first unit. */
  lemma PartitionCons(u: Unit, rest: seq<Unit>, st: TxState)
    ensures SortedUnits([u] + rest, st) == (if IsSorted(st, u) then [u] else []) + SortedUnits(rest, st)
    ensures UnsortedUnits([u] + rest, st) == (if IsSorted(st, u) then [] else [u]) + UnsortedUnits(rest, st)
  {
    assert ([u] + rest)[1..] == rest;
  }

  /** The first unit goes to one side or the other. */
  lemma PartitionHead(units: seq<Unit>, st: TxState)
    requires units != []
    ensures multiset(SortedUnits(units, st) + UnsortedUnits(units, st)) ==
      multiset{units[0]} + multiset(SortedUnits(units[1..], st) + UnsortedUnits(units[1..], st))
  {
    var u, rest := units[0], units[1..];
    assert units == [u] + rest;
    PartitionCons(u, rest, st);
    MoveIn(u, SortedUnits(rest, st), UnsortedUnits(rest, st));
  }

  lemma HeadMultiset<T>(units: seq<T>)
    requires units != []
    ensures multiset(units) == multiset{units[0]} + multiset(units[1..])
  {
    assert units == [units[0]] + units[1..];
  }

  lemma MoveIn<T>(u: T, s: seq<T>, t: seq<T>)
    ensures multiset(s + ([u] + t)) == multiset{u} + multiset(s + t)
    ensures multiset(([u] + s) + t) == multiset{u} + multiset(s + t)
  {
  }

  /** The largest sequence among `units`' transactions (0 for none). */
  function MaxSeq(units: seq<Unit>, st: TxState): (m: nat)
    ensures forall i :: 0 <= i < |units| ==> SeqOf(st, units[i].tx) <= m
    ensures units != [] ==> exists i :: 0 <= i < |units| && SeqOf(st, units[i].tx) == m
    ensures units == [] ==> m == 0
  {
    if units == [] then 0
    else
      var rest := MaxSeq(units[1..], st);
      var s := SeqOf(st, units[0].tx);
      if s >= rest then s else rest
  }

  /** ReadUnits::max_seq after sorting: 1 when nothing is sorted, else the
      largest sequence of the sorted units. */
  function ReadMaxSeq(units: seq<Unit>, st: TxState): nat {
    var sorted := SortedUnits(units, st);
    if sorted == [] then 1 else MaxSeq(sorted, st)
  }

  /** The transactions of some units. */
  function TxIds(units: seq<Unit>): set<nat> {
    set u | u in units :: u.tx
  }

  lemma TxIdsCons(units: seq<Unit>)
    requires units != []
    ensures TxIds(units) == {units[0].tx} + TxIds(units[1..])
  {
    assert forall u :: u in units <==> u == units[0] || u in units[1..];
  }

  /** Every transaction of `units` gets sequence `v`. */
  function SetSeq(st: TxState, units: seq<Unit>, v: nat): (r: TxState)
    ensures r.aborted == st.aborted
    ensures forall t :: SeqOf(r, t) == if t in TxIds(units) then v else SeqOf(st, t)
    decreases |units|
  {
    if units == [] then st
    else
      TxIdsCons(units);
      SetSeq(st.(seqs := st.seqs[units[0].tx := v]), units[1..], v)
  }

  /** After ReadUnits::sort every read unit's transaction is sequenced, no later
      than max_seq, and max_seq is 1 or some sorted unit's sequence. */
  lemma ReadSortBounds(units: seq<Unit>, st: TxState)
    ensures ReadMaxSeq(units, st) >= 1
    ensures forall i :: 0 <= i < |units| ==>
      1 <= SeqOf(SetSeq(st, UnsortedUnits(units, st), ReadMaxSeq(units, st)), units[i].tx) <= ReadMaxSeq(units, st)
  {
    ReadMaxPositive(units, st);
    forall i | 0 <= i < |units|
      ensures 1 <= SeqOf(SetSeq(st, UnsortedUnits(units, st), ReadMaxSeq(units, st)), units[i].tx) <= ReadMaxSeq(units, st)
    {
      ReadSortBound(units, st, units[i]);
    }
  }

  /** max_seq is at least 1: 1 itself, or the sequence of a sorted unit. */
  lemma ReadMaxPositive(units: seq<Unit>, st: TxState)
    ensures ReadMaxSeq(units, st) >= 1
  {
    var sorted := SortedUnits(units, st);
    if sorted != [] {
      var i :| 0 <= i < |sorted| && SeqOf(st, sorted[i].tx) == MaxSeq(sorted, st);
      PartitionMembers(units, st, sorted[i]);
    }
  }

  /** One read unit after ReadUnits::sort. */
  lemma ReadSortBound(units: seq<Unit>, st: TxState, u: Unit)
    requires u in units
    ensures 1 <= SeqOf(SetSeq(st, UnsortedUnits(units, st), ReadMaxSeq(units, st)), u.tx) <= ReadMaxSeq(units, st)
  {
    var m := ReadMaxSeq(units, st);
    var sorted := SortedUnits(units, st);
    var unsorted := UnsortedUnits(units, st);
    ReadMaxPositive(units, st);
    PartitionMembers(units, st, u);
    if IsSorted(st, u) {
      var j :| 0 <= j < |sorted| && sorted[j] == u;
      if u.tx in TxIds(unsorted) {
        var w :| w in unsorted && w.tx == u.tx;
        PartitionMembers(units, st, w);
        assert false;
      }
    } else {
      assert u.tx in TxIds(unsorted);
    }
  }

  /** Phase 1 of WriteUnits::sort over the sorted units: the first live
      co-located unit, while no updater has been chosen, becomes the first
      updater with sequence `firstSeq`; every later live co-located unit is
      aborted.  Gives the new state and the updater flag. */
  function FirstUpdater(sorted: seq<Unit>, st: TxState, flag: bool, firstSeq: nat): (TxState, bool)
    decreases |sorted|
  {
    if sorted == [] then (st, flag)
    else
      var u := sorted[0];
      if u.tx !in st.aborted && u.coLocated then
        if !flag then FirstUpdater(sorted[1..], st.(seqs := st.seqs[u.tx := firstSeq]), true, firstSeq)
        else FirstUpdater(sorted[1..], st.(aborted := st.aborted + {u.tx}), flag, firstSeq)
      else FirstUpdater(sorted[1..], st, flag, firstSeq)
  }

  /** What phase 1 guarantees: it only aborts sorted units' transactions and
      only re-sequences while no updater has been chosen; afterwards at most one
      co-located sorted unit is live, it holds `firstSeq`, and none is live
      when an updater had already been chosen. */
  lemma {:induction false} FirstUpdaterSpec(sorted: seq<Unit>, st: TxState, flag: bool, firstSeq: nat)
    ensures var r := FirstUpdater(sorted, st, flag, firstSeq);
      st.aborted <= r.0.aborted && r.0.aborted - st.aborted <= TxIds(sorted) &&
      (flag ==> r.0.seqs == st.seqs && r.1) &&
      (flag ==> forall i :: 0 <= i < |sorted| && sorted[i].coLocated ==> sorted[i].tx in r.0.aborted) &&
      (forall i, j :: 0 <= i < j < |sorted| && sorted[i].coLocated && sorted[j].coLocated ==>
        sorted[i].tx in r.0.aborted || sorted[j].tx in r.0.aborted) &&
      (forall i :: 0 <= i < |sorted| && sorted[i].coLocated && sorted[i].tx !in r.0.aborted ==>
        SeqOf(r.0, sorted[i].tx) == firstSeq) &&
      (forall t :: t !in TxIds(sorted) ==> SeqOf(r.0, t) == SeqOf(st, t)) &&
      (r.1 <==> flag || exists i :: 0 <= i < |sorted| && sorted[i].coLocated && sorted[i].tx !in st.aborted)
    decreases |sorted|
  {
    if sorted != [] {
      TxIdsCons(sorted);
      var u := sorted[0];
      if u.tx !in st.aborted && u.coLocated {
        if !flag {
          FirstUpdaterSpec(sorted[1..], st.(seqs := st.seqs[u.tx := firstSeq]), true, firstSeq);
        } else {
          FirstUpdaterSpec(sorted[1..], st.(aborted := st.aborted + {u.tx}), flag, firstSeq);
        }
      } else {
        FirstUpdaterSpec(sorted[1..], st, flag, firstSeq);
      }
    }
  }

  /** A co-located unit whose transaction is not aborted. */
  predicate LiveCoLocated(st: TxState, u: Unit) {
    u.coLocated && u.tx !in st.aborted
  }

  /** The transactions of the co-located units. */
  function CoLocatedTxs(units: seq<Unit>): set<nat> {
    set i | 0 <= i < |units| && units[i].coLocated :: units[i].tx
  }

  lemma CoLocatedTxsCons(units: seq<Unit>)
    requires units != []
    ensures CoLocatedTxs(units) ==
      (if units[0].coLocated then {units[0].tx} else {}) + CoLocatedTxs(units[1..])
  {
    var rest := units[1..];
    forall t | t in CoLocatedTxs(units)
      ensures t in (if units[0].coLocated then {units[0].tx} else {}) + CoLocatedTxs(rest)
    {
      var i :| 0 <= i < |units| && units[i].coLocated && units[i].tx == t;
      if i > 0 {
        assert rest[i - 1] == units[i];
      }
    }
    forall t | t in CoLocatedTxs(rest)
      ensures t in CoLocatedTxs(units)
    {
      var i :| 0 <= i < |rest| && rest[i].coLocated && rest[i].tx == t;
      assert units[i + 1] == rest[i];
    }
  }

  /** Once an updater has been chosen, phase 1 aborts the transaction of
      every co-located unit and changes nothing else. */
  lemma {:induction false} FirstUpdaterChosen(sorted: seq<Unit>, st: TxState, firstSeq: nat)
    ensures FirstUpdater(sorted, st, true, firstSeq) == (st.(aborted := st.aborted + CoLocatedTxs(sorted)), true)
    decreases |sorted|
  {
    if sorted == [] {
      assert CoLocatedTxs(sorted) == {};
      assert st.aborted + CoLocatedTxs(sorted) == st.aborted;
    } else {
      CoLocatedTxsCons(sorted);
      var u := sorted[0];
      if u.tx !in st.aborted && u.coLocated {
        FirstUpdaterChosen(sorted[1..], st.(aborted := st.aborted + {u.tx}), firstSeq);
        assert st.aborted + {u.tx} + CoLocatedTxs(sorted[1..]) == st.aborted + CoLocatedTxs(sorted);
      } else {
        FirstUpdaterChosen(sorted[1..], st, firstSeq);
        assert st.aborted + CoLocatedTxs(sorted) == st.aborted + CoLocatedTxs(sorted[1..]);
      }
    }
  }

  /** Phase 1 with no updater chosen yet, where unit `i` is the first live
      co-located one: its transaction becomes the first updater with sequence
      `firstSeq`, the transactions of exactly the later co-located units are
      aborted, and the updater itself stays live unless a later co-located
      unit belongs to it. */
  lemma {:induction false} FirstUpdaterPicks(sorted: seq<Unit>, st: TxState, firstSeq: nat, i: nat)
    requires i < |sorted| && LiveCoLocated(st, sorted[i])
    requires forall h :: 0 <= h < i ==> !LiveCoLocated(st, sorted[h])
    ensures var r := FirstUpdater(sorted, st, false, firstSeq);
      r.1 && SeqOf(r.0, sorted[i].tx) == firstSeq &&
      r.0.aborted == st.aborted + CoLocatedTxs(sorted[i + 1..]) &&
      (forall j :: i < j < |sorted| && sorted[j].coLocated ==> sorted[j].tx in r.0.aborted) &&
      (sorted[i].tx !in CoLocatedTxs(sorted[i + 1..]) ==> sorted[i].tx !in r.0.aborted)
    decreases i
  {
    var r := FirstUpdater(sorted, st, false, firstSeq);
    if i == 0 {
      FirstUpdaterChosen(sorted[1..], st.(seqs := st.seqs[sorted[0].tx := firstSeq]), firstSeq);
    } else {
      assert !LiveCoLocated(st, sorted[0]);
      FirstUpdaterPicks(sorted[1..], st, firstSeq, i - 1);
      assert sorted[1..][i - 1] == sorted[i];
      assert sorted[1..][i - 1 + 1..] == sorted[i + 1..];
    }
    forall j | i < j < |sorted| && sorted[j].coLocated
      ensures sorted[j].tx in r.0.aborted
    {
      assert sorted[i + 1..][j - i - 1] == sorted[j];
    }
  }

  /** Phase 1 with no live co-located unit changes nothing. */
  lemma {:induction false} FirstUpdaterNone(sorted: seq<Unit>, st: TxState, flag: bool, firstSeq: nat)
    requires forall h :: 0 <= h < |sorted| ==> !LiveCoLocated(st, sorted[h])
    ensures FirstUpdater(sorted, st, flag, firstSeq) == (st, flag)
    decreases |sorted|
  {
    if sorted != [] {
      assert !LiveCoLocated(st, sorted[0]);
      FirstUpdaterNone(sorted[1..], st, flag, firstSeq);
    }
  }

  /** Phase 2 of WriteUnits::sort: every live sorted unit whose sequence is
      below the read side's max_seq is aborted. */
  function AbortStale(sorted: seq<Unit>, st: TxState, readMax: nat): TxState
    decreases |sorted|
  {
    if sorted == [] then st
    else
      var u := sorted[0];
      var st' := if u.tx !in st.aborted && SeqOf(st, u.tx) < readMax then st.(aborted := st.aborted + {u.tx}) else st;
      AbortStale(sorted[1..], st', readMax)
  }

  /** What phase 2 guarantees: sequences are untouched; afterwards every live
      sorted unit holds at least `readMax`, and only sorted transactions below
      `readMax` were aborted. */
  lemma {:induction false} AbortStaleSpec(sorted: seq<Unit>, st: TxState, readMax: nat)
    ensures var r := AbortStale(sorted, st, readMax);
      r.seqs == st.seqs && st.aborted <= r.aborted &&
      (forall i :: 0 <= i < |sorted| && sorted[i].tx !in r.aborted ==> SeqOf(r, sorted[i].tx) >= readMax) &&
      r.aborted - st.aborted <= TxIds(sorted) &&
      (forall t :: t in r.aborted - st.aborted ==> SeqOf(st, t) < readMax)
    decreases |sorted|
  {
    if sorted != [] {
      TxIdsCons(sorted);
      var u := sorted[0];
      var st' := if u.tx !in st.aborted && SeqOf(st, u.tx) < readMax then st.(aborted := st.aborted + {u.tx}) else st;
      AbortStaleSpec(sorted[1..], st', readMax);
    }
  }

  /** The sequences the sorted units hold (the `write_seq_set`). */
  function UsedSeqs(sorted: seq<Unit>, st: TxState): (s: set<nat>)
    ensures forall i :: 0 <= i < |sorted| ==> SeqOf(st, sorted[i].tx) in s
  {
    set i | 0 <= i < |sorted| :: SeqOf(st, sorted[i].tx)
  }

  lemma FewerAbove(used: set<nat>, n: nat)
    requires n in used
    ensures |set k | k in used && k >= n + 1| < |set k | k in used && k >= n|
  {
    var a := set k | k in used && k >= n + 1;
    var b := set k | k in used && k >= n;
    assert b == a + {n} && n !in a;
  }

  /** The first sequence from `n` on that is not used yet. */
  function NextFree(used: set<nat>, n: nat): (m: nat)
    ensures n <= m && m !in used
    ensures forall k :: n <= k < m ==> k in used
    decreases |set k | k in used && k >= n|
  {
    if n !in used then n
    else
      FewerAbove(used, n);
      NextFree(used, n + 1)
  }

  /** Phase 4 of WriteUnits::sort: each unsorted unit in turn takes the first
      unused sequence from `next` on.  Gives the new state and the last
      sequence handed out (`next` when none was). */
  function AssignFresh(remaining: seq<Unit>, st: TxState, used: set<nat>, next: nat): (TxState, nat)
    decreases |remaining|
  {
    if remaining == [] then (st, next)
    else
      var s := NextFree(used, next);
      AssignFresh(remaining[1..], st.(seqs := st.seqs[remaining[0].tx := s]), used + {s}, s)
  }

  /** What phase 4 guarantees: no abort flag changes and only the unsorted
      transactions are re-sequenced; with distinct transactions each gets a
      sequence from `next` on that was not used, increasing along the list. */
  lemma AssignFreshSpec(remaining: seq<Unit>, st: TxState, used: set<nat>, next: nat)
    ensures var r := AssignFresh(remaining, st, used, next);
      r.0.aborted == st.aborted && r.1 >= next &&
      (forall t :: t !in TxIds(remaining) ==> SeqOf(r.0, t) == SeqOf(st, t)) &&
      (DistinctTxs(remaining) ==> forall i :: 0 <= i < |remaining| ==>
        next <= SeqOf(r.0, remaining[i].tx) <= r.1 && SeqOf(r.0, remaining[i].tx) !in used) &&
      (DistinctTxs(remaining) ==> forall i, j :: 0 <= i < j < |remaining| ==>
        SeqOf(r.0, remaining[i].tx) < SeqOf(r.0, remaining[j].tx))
  {
    AssignFreshFrame(remaining, st, used, next);
    if DistinctTxs(remaining) {
      AssignFreshUnused(remaining, st, used, next);
      AssignFreshIncreasing(remaining, st, used, next);
    }
  }

  /** Phase 4 leaves the abort flags and the other transactions alone. */
  lemma {:induction false} AssignFreshFrame(remaining: seq<Unit>, st: TxState, used: set<nat>, next: nat)
    ensures var r := AssignFresh(remaining, st, used, next);
      r.0.aborted == st.aborted && r.1 >= next &&
      (forall t :: t !in TxIds(remaining) ==> SeqOf(r.0, t) == SeqOf(st, t))
    decreases |remaining|
  {
    if remaining != [] {
      TxIdsCons(remaining);
      var s := NextFree(used, next);
      AssignFreshFrame(remaining[1..], st.(seqs := st.seqs[remaining[0].tx := s]), used + {s}, s);
    }
  }

  /** The first transaction of a list with distinct transactions is not
      among the others. */
  lemma DistinctHead(units: seq<Unit>)
    requires units != [] && DistinctTxs(units)
    ensures units[0].tx !in TxIds(units[1..]) && DistinctTxs(units[1..])
  {
    if units[0].tx in TxIds(units[1..]) {
      assert false;
    }
  }

  /** With distinct transactions, phase 4 gives each a sequence from `next`
      on, up to the last one handed out, that was not used. */
  lemma {:induction false} AssignFreshUnused(remaining: seq<Unit>, st: TxState, used: set<nat>, next: nat)
    requires DistinctTxs(remaining)
    ensures var r := AssignFresh(remaining, st, used, next);
      forall i :: 0 <= i < |remaining| ==>
        next <= SeqOf(r.0, remaining[i].tx) <= r.1 && SeqOf(r.0, remaining[i].tx) !in used
    decreases |remaining|
  {
    if remaining != [] {
      var s := NextFree(used, next);
      var st' := st.(seqs := st.seqs[remaining[0].tx := s]);
      var rest := remaining[1..];
      DistinctHead(remaining);
      AssignFreshFrame(rest, st', used + {s}, s);
      AssignFreshUnused(rest, st', used + {s}, s);
      assert forall i :: 1 <= i < |remaining| ==> rest[i - 1] == remaining[i];
    }
  }

  /** With distinct transactions, phase 4 hands out increasing sequences. */
  lemma {:induction false} AssignFreshIncreasing(remaining: seq<Unit>, st: TxState, used: set<nat>, next: nat)
    requires DistinctTxs(remaining)
    ensures var r := AssignFresh(remaining, st, used, next);
      forall i, j :: 0 <= i < j < |remaining| ==> SeqOf(r.0, remaining[i].tx) < SeqOf(r.0, remaining[j].tx)
    decreases |remaining|
  {
    if remaining != [] {
      var s := NextFree(used, next);
      var st' := st.(seqs := st.seqs[remaining[0].tx := s]);
      var rest := remaining[1..];
      DistinctHead(remaining);
      AssignFreshFrame(rest, st', used + {s}, s);
      AssignFreshUnused(rest, st', used + {s}, s);
      AssignFreshIncreasing(rest, st', used + {s}, s);
      assert forall i :: 1 <= i < |remaining| ==> rest[i - 1] == remaining[i];
    }
  }

  /** Everything WriteUnits::sort computes, phase by phase: the new state, the
      new updater flag and the new max_seq. */
  function WriteSort(units: seq<Unit>, st: TxState, flag: bool, readMax: nat): (TxState, bool, nat) {
    var sorted := SortedUnits(units, st);
    var remaining := UnsortedUnits(units, st);
    var p1 := FirstUpdater(sorted, st, flag, readMax + 1);
    var st2 := AbortStale(sorted, p1.0, readMax);
    var p4 := AssignFresh(remaining, st2, UsedSeqs(sorted, st2), readMax + 1);
    (p4.0, p1.1, p4.1)
  }

  /** WriteSort is its four phases run one after the other. */
  lemma WriteSortPhases(units: seq<Unit>, st: TxState, flag: bool, readMax: nat,
                        st1: TxState, flag1: bool, st2: TxState, used: set<nat>, st3: TxState, last: nat)
    requires (st1, flag1) == FirstUpdater(SortedUnits(units, st), st, flag, readMax + 1)
    requires st2 == AbortStale(SortedUnits(units, st), st1, readMax)
    requires used == UsedSeqs(SortedUnits(units, st), st2)
    requires (st3, last) == AssignFresh(UnsortedUnits(units, st), st2, used, readMax + 1)
    ensures WriteSort(units, st, flag, readMax) == (st3, flag1, last)
  {
  }

  /** After WriteUnits::sort the write units of an address have sequences that
      do not collide: the unsorted ones get distinct sequences above the read
      side's max_seq, none of them taken by a sorted unit, and every sorted
      unit still live holds at least the read side's max_seq. */
  lemma WriteSortSequences(units: seq<Unit>, st: TxState, flag: bool, readMax: nat)
    requires DistinctTxs(units)
    ensures var r := WriteSort(units, st, flag, readMax).0;
      var sorted := SortedUnits(units, st);
      var remaining := UnsortedUnits(units, st);
      (forall i :: 0 <= i < |remaining| ==> SeqOf(r, remaining[i].tx) > readMax) &&
      (forall i, j :: 0 <= i < j < |remaining| ==> SeqOf(r, remaining[i].tx) != SeqOf(r, remaining[j].tx)) &&
      (forall i, j :: 0 <= i < |remaining| && 0 <= j < |sorted| ==> SeqOf(r, remaining[i].tx) != SeqOf(r, sorted[j].tx)) &&
      (forall j :: 0 <= j < |sorted| && sorted[j].tx !in r.aborted ==> SeqOf(r, sorted[j].tx) >= readMax)
  {
    var sorted := SortedUnits(units, st);
    var remaining := UnsortedUnits(units, st);
    var p1 := FirstUpdater(sorted, st, flag, readMax + 1);
    var st2 := AbortStale(sorted, p1.0, readMax);
    var used := UsedSeqs(sorted, st2);
    var r := AssignFresh(remaining, st2, used, readMax + 1).0;
    FirstUpdaterSpec(sorted, st, flag, readMax + 1);
    AbortStaleSpec(sorted, p1.0, readMax);
    AssignFreshSpec(remaining, st2, used, readMax + 1);
    DistinctSubsequence(units, st);
    forall j | 0 <= j < |sorted|
      ensures SeqOf(r, sorted[j].tx) == SeqOf(st2, sorted[j].tx)
    {
      SidesApart(units, st, sorted[j]);
    }
  }

  /** A sorted unit's transaction has no unsorted unit. */
  lemma SidesApart(units: seq<Unit>, st: TxState, u: Unit)
    requires u in SortedUnits(units, st)
    ensures u.tx !in TxIds(UnsortedUnits(units, st))
  {
    PartitionMembers(units, st, u);
    if u.tx in TxIds(UnsortedUnits(units, st)) {
      var w :| w in UnsortedUnits(units, st) && w.tx == u.tx;
      PartitionMembers(units, st, w);
      assert false;
    }
  }

  /** The unsorted units of a list with distinct transactions have distinct
      transactions too. */
  lemma {:induction false} DistinctSubsequence(units: seq<Unit>, st: TxState)
    requires DistinctTxs(units)
    ensures DistinctTxs(UnsortedUnits(units, st))
  {
    if units != [] {
      DistinctSubsequence(units[1..], st);
      var rest := UnsortedUnits(units[1..], st);
      forall i | 0 <= i < |rest| ensures rest[i].tx != units[0].tx {
        PartitionMembers(units[1..], st, rest[i]);
        var k :| 0 <= k < |units[1..]| && units[1..][k] == rest[i];
        assert units[k + 1] == rest[i];
      }
    }
  }

  /** The transactions' mutable fields. */
  class Txs {
    var seqs: map<nat, nat>
    var aborted: set<nat>

    function State(): TxState
      reads this
    {
      TxState(seqs, aborted)
    }

    constructor (seqs: map<nat, nat>, aborted: set<nat>)
      ensures this.seqs == seqs && this.aborted == aborted
    {
      this.seqs := seqs;
      this.aborted := aborted;
    }
  }

  /** The read units of one address. */
  class ReadUnits {
    var units: seq<Unit>
    var maxSeq: nat

    constructor (units: seq<Unit>)
      ensures this.units == units && maxSeq == 0
    {
      this.units := units;
      maxSeq := 0;
    }

    /** ReadUnits::sort: sorted units first, then the others, which all take
        the new max_seq. */
    method Sort(txs: Txs)
      modifies this, txs
      ensures units == SortedUnits(old(units), old(txs.State())) + UnsortedUnits(old(units), old(txs.State()))
      ensures maxSeq == ReadMaxSeq(old(units), old(txs.State()))
      ensures txs.State() == SetSeq(old(txs.State()), UnsortedUnits(old(units), old(txs.State())), maxSeq)
    {
      var st := txs.State();
      var sorted, remaining := Partition(units, st);
      var m := 1;
      if sorted != [] {
        m := LargestSeq(sorted, st);
      }
      SetSeqPass(remaining, txs, m);
      maxSeq := m;
      units := sorted + remaining;
    }
  }

  /** The last loop of ReadUnits::sort: each unsorted unit's transaction
      takes sequence `m`. */
  method SetSeqPass(remaining: seq<Unit>, txs: Txs, m: nat)
    modifies txs
    ensures txs.State() == SetSeq(old(txs.State()), remaining, m)
  {
    for k := 0 to |remaining|
      invariant SetSeq(txs.State(), remaining[k..], m) == SetSeq(old(txs.State()), remaining, m)
    {
      assert remaining[k..][1..] == remaining[k + 1..];
      txs.seqs := txs.seqs[remaining[k].tx := m];
    }
  }

  /** `partition_copy` by `is_sorted`, keeping the order on both sides. */
  method Partition(units: seq<Unit>, st: TxState) returns (sorted: seq<Unit>, remaining: seq<Unit>)
    ensures sorted == SortedUnits(units, st) && remaining == UnsortedUnits(units, st)
  {
    sorted, remaining := [], [];
    var i := 0;
    while i < |units|
      invariant 0 <= i <= |units|
      invariant sorted + SortedUnits(units[i..], st) == SortedUnits(units, st)
      invariant remaining + UnsortedUnits(units[i..], st) == UnsortedUnits(units, st)
    {
      assert units[i..][1..] == units[i + 1..];
      ghost var restSorted := SortedUnits(units[i + 1..], st);
      ghost var restUnsorted := UnsortedUnits(units[i + 1..], st);
      if SeqOf(st, units[i].tx) > 0 {
        assert SortedUnits(units[i..], st) == [units[i]] + restSorted;
        assert UnsortedUnits(units[i..], st) == restUnsorted;
        assert (sorted + [units[i]]) + restSorted == sorted + ([units[i]] + restSorted);
        sorted := sorted + [units[i]];
      } else {
        assert SortedUnits(units[i..], st) == restSorted;
        assert UnsortedUnits(units[i..], st) == [units[i]] + restUnsorted;
        assert (remaining + [units[i]]) + restUnsorted == remaining + ([units[i]] + restUnsorted);
        remaining := remaining + [units[i]];
      }
      i := i + 1;
    }
    assert units[i..] == [];
  }

  /** The sequence `max_element` finds among the sorted units. */
  method LargestSeq(sorted: seq<Unit>, st: TxState) returns (best: nat)
    requires sorted != []
    ensures best == MaxSeq(sorted, st)
    ensures exists i :: 0 <= i < |sorted| && SeqOf(st, sorted[i].tx) == best
    ensures forall i :: 0 <= i < |sorted| ==> SeqOf(st, sorted[i].tx) <= best
  {
    best := SeqOf(st, sorted[0].tx);
    var j := 1;
    while j < |sorted|
      invariant 1 <= j <= |sorted|
      invariant best == MaxSeq(sorted[..j], st)
    {
      MaxSeqSnoc(sorted[..j], sorted[j], st);
      assert sorted[..j + 1] == sorted[..j] + [sorted[j]];
      if best < SeqOf(st, sorted[j].tx) {
        best := SeqOf(st, sorted[j].tx);
      }
      j := j + 1;
    }
    assert sorted[..j] == sorted;
  }

  lemma {:induction false} MaxSeqSnoc(s: seq<Unit>, u: Unit, st: TxState)
    requires s != []
    ensures MaxSeq(s + [u], st) == if MaxSeq(s, st) < SeqOf(st, u.tx) then SeqOf(st, u.tx) else MaxSeq(s, st)
    decreases |s|
  {
    assert (s + [u])[1..] == s[1..] + [u];
    if |s| > 1 {
      MaxSeqSnoc(s[1..], u, st);
    }
  }

  /** The write units of one address. */
  class WriteUnits {
    var units: seq<Unit>
    var maxSeq: nat
    var firstUpdaterFlag: bool

    constructor (units: seq<Unit>)
      ensures this.units == units && maxSeq == 0 && !firstUpdaterFlag
    {
      this.units := units;
      maxSeq := 0;
      firstUpdaterFlag := false;
    }

    /** WriteUnits::sort against the address's (already sorted) read units. */
    method Sort(readUnits: ReadUnits, txs: Txs)
      modifies this, txs
      ensures units == SortedUnits(old(units), old(txs.State())) + UnsortedUnits(old(units), old(txs.State()))
      ensures (txs.State(), firstUpdaterFlag, maxSeq) ==
        WriteSort(old(units), old(txs.State()), old(firstUpdaterFlag), readUnits.maxSeq)
    {
      var readMax := readUnits.maxSeq;
      ghost var st0 := txs.State();
      var sorted, remaining := Partition(units, txs.State());
      var flag := FirstUpdaterPass(sorted, txs, firstUpdaterFlag, readMax + 1);
      ghost var st1 := txs.State();
      AbortStalePass(sorted, txs, readMax);
      ghost var st2 := txs.State();
      var writeSeqSet := CollectSeqs(sorted, txs);
      assert txs.State() == st2;
      var last := AssignFreshPass(remaining, txs, writeSeqSet, readMax + 1);
      WriteSortPhases(units, st0, firstUpdaterFlag, readMax, st1, flag, st2, writeSeqSet, txs.State(), last);
      firstUpdaterFlag, maxSeq := flag, last;
      units := sorted + remaining;
    }
  }

  /** The first loop of WriteUnits::sort. */
  method FirstUpdaterPass(sorted: seq<Unit>, txs: Txs, flag: bool, firstSeq: nat) returns (newFlag: bool)
    modifies txs
    ensures (txs.State(), newFlag) == FirstUpdater(sorted, old(txs.State()), flag, firstSeq)
  {
    newFlag := flag;
    var i := 0;
    while i < |sorted|
      invariant 0 <= i <= |sorted|
      invariant FirstUpdater(sorted[i..], txs.State(), newFlag, firstSeq) == FirstUpdater(sorted, old(txs.State()), flag, firstSeq)
    {
      assert sorted[i..][1..] == sorted[i + 1..];
      var u := sorted[i];
      if u.tx !in txs.aborted && u.coLocated {
        if !newFlag {
          txs.seqs := txs.seqs[u.tx := firstSeq];
          newFlag := true;
        } else {
          txs.aborted := txs.aborted + {u.tx};
        }
      }
      i := i + 1;
    }
  }

  /** The second loop of WriteUnits::sort. */
  method AbortStalePass(sorted: seq<Unit>, txs: Txs, readMax: nat)
    modifies txs
    ensures txs.State() == AbortStale(sorted, old(txs.State()), readMax)
  {
    var i := 0;
    while i < |sorted|
      invariant 0 <= i <= |sorted|
      invariant AbortStale(sorted[i..], txs.State(), readMax) == AbortStale(sorted, old(txs.State()), readMax)
    {
      assert sorted[i..][1..] == sorted[i + 1..];
      var u := sorted[i];
      if u.tx !in txs.aborted && SeqOf(txs.State(), u.tx) < readMax {
        txs.aborted := txs.aborted + {u.tx};
      }
      i := i + 1;
    }
  }

  /** The `write_seq_set` loop of WriteUnits::sort. */
  method CollectSeqs(sorted: seq<Unit>, txs: Txs) returns (used: set<nat>)
    ensures used == UsedSeqs(sorted, txs.State())
  {
    used := {};
    var i := 0;
    while i < |sorted|
      invariant 0 <= i <= |sorted|
      invariant used == set j | 0 <= j < i :: SeqOf(txs.State(), sorted[j].tx)
    {
      used := used + {SeqOf(txs.State(), sorted[i].tx)};
      i := i + 1;
    }
  }

  /** The inner `while (write_seq_set.count(write_seq)) ++write_seq`. */
  method SkipUsed(used: set<nat>, n: nat) returns (m: nat)
    ensures m == NextFree(used, n)
  {
    m := n;
    while m in used
      invariant n <= m && NextFree(used, n) == NextFree(used, m)
      decreases |set k | k in used && k >= m|
    {
      FewerAbove(used, m);
      m := m + 1;
    }
  }

  /** The last loop of WriteUnits::sort; gives the final `write_seq`. */
  method AssignFreshPass(remaining: seq<Unit>, txs: Txs, used: set<nat>, next: nat) returns (writeSeq: nat)
    modifies txs
    ensures (txs.State(), writeSeq) == AssignFresh(remaining, old(txs.State()), used, next)
  {
    var writeSeqSet := used;
    writeSeq := next;
    var i := 0;
    while i < |remaining|
      invariant 0 <= i <= |remaining|
      invariant AssignFresh(remaining[i..], txs.State(), writeSeqSet, writeSeq) == AssignFresh(remaining, old(txs.State()), used, next)
    {
      assert remaining[i..][1..] == remaining[i + 1..];
      writeSeq := SkipUsed(writeSeqSet, writeSeq);
      txs.seqs := txs.seqs[remaining[i].tx := writeSeq];
      writeSeqSet := writeSeqSet + {writeSeq};
      i := i + 1;
    }
  }

  // ---------------------------------------------------------------------
  // Building units and dependencies

  /** The addresses some units sit at. */
  function AddressesOf(units: seq<Unit>): set<string> {
    set u | u in units :: u.address
  }

  /** AddressBasedConflictGraph::convert_to_units: one unit per key of the
      read or write set, co-located when the key is also in `readSet` (empty
      for read units). */
  /** `units` holds one unit of `tx` per address of `done`, each co-located
      exactly when its address is in `readSet`. */
  predicate Converted(units: seq<Unit>, tx: nat, unitType: UnitType, readSet: set<string>, done: set<string>) {
    && |units| == |done| && AddressesOf(units) == done
    && (forall i, j :: 0 <= i < j < |units| ==> units[i].address != units[j].address)
    && (forall i :: 0 <= i < |units| ==>
          units[i] == Unit(tx, unitType, units[i].address, units[i].address in readSet, 0))
  }

  lemma ConvertStep(units: seq<Unit>, tx: nat, unitType: UnitType, readSet: set<string>, done: set<string>, k: string)
    requires Converted(units, tx, unitType, readSet, done) && k !in done
    ensures Converted(units + [Unit(tx, unitType, k, k in readSet, 0)], tx, unitType, readSet, done + {k})
  {
    var u := Unit(tx, unitType, k, k in readSet, 0);
    assert forall i :: 0 <= i < |units| ==> units[i] in units;
    assert AddressesOf(units + [u]) == AddressesOf(units) + {k} by {
      assert forall v :: v in units + [u] <==> v in units || v == u;
    }
  }

  method ConvertToUnits(tx: nat, unitType: UnitType, keys: set<string>, readSet: set<string>)
    returns (units: seq<Unit>)
    ensures Converted(units, tx, unitType, readSet, keys)
  {
    units := [];
    var rest := keys;
    while rest != {}
      invariant rest <= keys && Converted(units, tx, unitType, readSet, keys - rest)
      decreases rest
    {
      var k :| k in rest;
      var coLocate := false;
      if readSet != {} {
        if k in readSet {
          coLocate := true;
        }
      }
      ConvertStep(units, tx, unitType, readSet, keys - rest, k);
      units := units + [Unit(tx, unitType, k, coLocate, 0)];
      assert keys - rest + {k} == keys - (rest - {k});
      rest := rest - {k};
    }
  }

  /** How many of `units` sit at an address other than `a`. */
  function CountOther(units: seq<Unit>, a: string): (n: nat)
    ensures n <= |units|
  {
    if units == [] then 0
    else CountOther(units[..|units| - 1], a) + (if units[|units| - 1].address != a then 1 else 0)
  }

  /** The inner loop of set_wr_dependencies for one write unit `w`: every read
      unit at another address gains a dependency, and `w` gains one per such
      read unit. */
  method PairWithWrite(readUnits: seq<Unit>, w: Unit) returns (newReads: seq<Unit>, newW: Unit)
    ensures |newReads| == |readUnits|
    ensures forall m :: 0 <= m < |readUnits| ==>
      newReads[m] == readUnits[m].(wrDependencies := readUnits[m].wrDependencies + (if readUnits[m].address != w.address then 1 else 0))
    ensures newW == w.(wrDependencies := w.wrDependencies + CountOther(readUnits, w.address))
  {
    newReads, newW := readUnits, w;
    var i := 0;
    while i < |newReads|
      invariant 0 <= i <= |newReads| == |readUnits|
      invariant forall m :: 0 <= m < i ==>
        newReads[m] == readUnits[m].(wrDependencies := readUnits[m].wrDependencies + (if readUnits[m].address != w.address then 1 else 0))
      invariant forall m :: i <= m < |newReads| ==> newReads[m] == readUnits[m]
      invariant newW == w.(wrDependencies := w.wrDependencies + CountOther(readUnits[..i], w.address))
    {
      assert readUnits[..i + 1][..i] == readUnits[..i];
      if newReads[i].address != w.address {
        newReads := newReads[i := newReads[i].(wrDependencies := newReads[i].wrDependencies + 1)];
        newW := newW.(wrDependencies := newW.wrDependencies + 1);
      }
      i := i + 1;
    }
    assert readUnits[..i] == readUnits;
  }

  /** AddressBasedConflictGraph::set_wr_dependencies: for every (write, read)
      pair of one transaction at different addresses both units gain one
      dependency. */
  method SetWrDependencies(readUnits: seq<Unit>, writeUnits: seq<Unit>)
    returns (readOut: seq<Unit>, writeOut: seq<Unit>)
    ensures |readOut| == |readUnits| && |writeOut| == |writeUnits|
    ensures forall i :: 0 <= i < |readOut| ==>
      readOut[i] == readUnits[i].(wrDependencies := readUnits[i].wrDependencies + CountOther(writeUnits, readUnits[i].address))
    ensures forall j :: 0 <= j < |writeOut| ==>
      writeOut[j] == writeUnits[j].(wrDependencies := writeUnits[j].wrDependencies + CountOther(readUnits, writeUnits[j].address))
  {
    readOut, writeOut := readUnits, writeUnits;
    var j := 0;
    while j < |writeOut|
      invariant 0 <= j <= |writeOut| == |writeUnits| && |readOut| == |readUnits|
      invariant forall i :: 0 <= i < |readOut| ==>
        readOut[i] == readUnits[i].(wrDependencies := readUnits[i].wrDependencies + CountOther(writeUnits[..j], readUnits[i].address))
      invariant forall m :: 0 <= m < j ==>
        writeOut[m] == writeUnits[m].(wrDependencies := writeUnits[m].wrDependencies + CountOther(readUnits, writeUnits[m].address))
      invariant forall m :: j <= m < |writeOut| ==> writeOut[m] == writeUnits[m]
    {
      var w: Unit;
      ghost var before := readOut;
      readOut, w := PairWithWrite(readOut, writeOut[j]);
      forall i | 0 <= i < |readOut|
        ensures readOut[i] == readUnits[i].(wrDependencies := readUnits[i].wrDependencies + CountOther(writeUnits[..j + 1], readUnits[i].address))
      {
        CountOtherSnoc(writeUnits, j, readUnits[i].address);
      }
      SameAddressesSameCount(before, readUnits, writeUnits[j].address);
      writeOut := writeOut[j := w];
      j := j + 1;
    }
    assert writeUnits[..j] == writeUnits;
  }

  lemma CountOtherSnoc(s: seq<Unit>, j: nat, a: string)
    requires j < |s|
    ensures CountOther(s[..j + 1], a) == CountOther(s[..j], a) + (if s[j].address != a then 1 else 0)
  {
    assert s[..j + 1][..j] == s[..j];
  }

  lemma {:induction false} SameAddressesSameCount(s: seq<Unit>, t: seq<Unit>, a: string)
    requires |s| == |t| && forall i :: 0 <= i < |s| ==> s[i].address == t[i].address
    ensures CountOther(s, a) == CountOther(t, a)
    decreases |s|
  {
    if s != [] {
      SameAddressesSameCount(s[..|s| - 1], t[..|t| - 1], a);
    }
  }

  /** The dependencies set_wr_dependencies adds on the read side, summed. */
  function ReadSideSum(rs: seq<Unit>, ws0: seq<Unit>): nat {
    if rs == [] then 0
    else ReadSideSum(rs[..|rs| - 1], ws0) + CountOther(ws0, rs[|rs| - 1].address)
  }

  /** The dependencies set_wr_dependencies adds on the write side, summed. */
  function WriteSideSum(rs: seq<Unit>, ws0: seq<Unit>): nat {
    if ws0 == [] then 0
    else WriteSideSum(rs, ws0[..|ws0| - 1]) + CountOther(rs, ws0[|ws0| - 1].address)
  }

  lemma {:induction false} ReadSideSnoc(rs: seq<Unit>, ws0: seq<Unit>, w: Unit)
    ensures ReadSideSum(rs, ws0 + [w]) == ReadSideSum(rs, ws0) + CountOther(rs, w.address)
    decreases |rs|
  {
    if rs != [] {
      var r := rs[|rs| - 1];
      ReadSideSnoc(rs[..|rs| - 1], ws0, w);
      assert (ws0 + [w])[..|ws0 + [w]| - 1] == ws0;
      assert CountOther(ws0 + [w], r.address) == CountOther(ws0, r.address) + (if w.address != r.address then 1 else 0);
    }
  }

  /** Both sides gain the same number of dependencies in total: one per
      (write, read) pair at different addresses. */
  lemma {:induction false} DependencyTotalsAgree(rs: seq<Unit>, ws0: seq<Unit>)
    ensures ReadSideSum(rs, ws0) == WriteSideSum(rs, ws0)
    decreases |ws0|
  {
    if ws0 == [] {
      ReadSideEmpty(rs);
    } else {
      var ws := ws0[..|ws0| - 1];
      DependencyTotalsAgree(rs, ws);
      ReadSideSnoc(rs, ws, ws0[|ws0| - 1]);
      assert ws + [ws0[|ws0| - 1]] == ws0;
    }
  }

  lemma {:induction false} ReadSideEmpty(rs: seq<Unit>)
    ensures ReadSideSum(rs, []) == 0
    decreases |rs|
  {
    if rs != [] {
      ReadSideEmpty(rs[..|rs| - 1]);
    }
  }

  // ---------------------------------------------------------------------
  // The graph: addresses, transactions and aborted transactions

  /** What address_rank and the updater check read of an address. */
  datatype Address = Address(address: string, inDegree: nat, outDegree: nat, firstUpdaterFlag: bool)

  /** address_rank's comparator: larger in-degree first, then smaller
      out-degree, then the smaller address. */
  predicate RankBefore(a: Address, b: Address) {
    if a.inDegree != b.inDegree then a.inDegree > b.inDegree
    else if a.outDegree != b.outDegree then a.outDegree < b.outDegree
    else LoomOrder.StrLess(a.address, b.address)
  }

  /** The comparator is a strict total order on addresses with distinct names. */
  lemma RankBeforeStrictTotal(a: Address, b: Address, c: Address)
    ensures !RankBefore(a, a)
    ensures RankBefore(a, b) ==> !RankBefore(b, a)
    ensures RankBefore(a, b) && RankBefore(b, c) ==> RankBefore(a, c)
    ensures a.address != b.address ==> RankBefore(a, b) || RankBefore(b, a)
  {
    LoomOrder.StrLessIrreflexive(a.address);
    LoomOrder.StrLessTotal(a.address, b.address);
    if RankBefore(a, b) && RankBefore(b, c) && a.inDegree == b.inDegree == c.inDegree && a.outDegree == b.outDegree == c.outDegree {
      LoomOrder.StrLessTransitive(a.address, b.address, c.address);
    }
  }

  /** No address of `s` should come before an earlier one. */
  predicate Ranked(s: seq<Address>) {
    forall i, j :: 0 <= i < j < |s| ==> !RankBefore(s[j], s[i])
  }

  /** Places `x` before the first address it ranks before. */
  function Insert(x: Address, s: seq<Address>): (r: seq<Address>)
    ensures |r| == |s| + 1
  {
    if s == [] then [x]
    else if RankBefore(x, s[0]) then [x] + s
    else [s[0]] + Insert(x, s[1..])
  }

  /** Inserting keeps the addresses, adds `x`, and keeps them ranked. */
  lemma InsertSpec(x: Address, s: seq<Address>)
    requires Ranked(s)
    ensures multiset(Insert(x, s)) == multiset(s) + multiset{x}
    ensures Ranked(Insert(x, s))
  {
    InsertKeeps(x, s);
    InsertRanked(x, s);
  }

  lemma {:induction false} InsertKeeps(x: Address, s: seq<Address>)
    ensures multiset(Insert(x, s)) == multiset(s) + multiset{x}
    decreases |s|
  {
    if s != [] {
      HeadMultiset(s);
      if !RankBefore(x, s[0]) {
        InsertKeeps(x, s[1..]);
        HeadMultiset([s[0]] + Insert(x, s[1..]));
        assert ([s[0]] + Insert(x, s[1..]))[1..] == Insert(x, s[1..]);
      }
    }
  }

  lemma {:induction false} InsertRanked(x: Address, s: seq<Address>)
    requires Ranked(s)
    ensures Ranked(Insert(x, s))
    decreases |s|
  {
    if s == [] {
    } else if RankBefore(x, s[0]) {
      forall j | 0 <= j < |s| ensures !RankBefore(s[j], x) {
        RankBeforeStrictTotal(s[j], x, s[0]);
        RankBeforeStrictTotal(x, s[0], s[j]);
      }
    } else {
      RankedTail(s);
      InsertKeeps(x, s[1..]);
      InsertRanked(x, s[1..]);
      InsertRankedStep(x, s, Insert(x, s[1..]));
    }
  }

  lemma RankedTail(s: seq<Address>)
    requires Ranked(s) && s != []
    ensures Ranked(s[1..]) && forall y :: y in s[1..] ==> !RankBefore(y, s[0])
  {
    forall y | y in s[1..] ensures !RankBefore(y, s[0]) {
      var m :| 0 <= m < |s[1..]| && s[1..][m] == y;
      assert s[m + 1] == y;
    }
  }

  /** `s[0]` stays in front of `x` inserted into the rest. */
  lemma InsertRankedStep(x: Address, s: seq<Address>, t: seq<Address>)
    requires s != [] && !RankBefore(x, s[0]) && Ranked(t) && multiset(t) == multiset(s[1..]) + multiset{x}
    requires forall y :: y in s[1..] ==> !RankBefore(y, s[0])
    ensures Ranked([s[0]] + t)
  {
    var r := [s[0]] + t;
    forall i, j | 0 <= i < j < |r| ensures !RankBefore(r[j], r[i]) {
      if i == 0 {
        assert r[j] in multiset(t);
        if r[j] != x {
          assert r[j] in multiset(s[1..]);
        }
      } else {
        assert r[j] == t[j - 1] && r[i] == t[i - 1];
      }
    }
  }

  /** The addresses in rank order (an insertion sort standing for std::sort). */
  function SortAddresses(list: seq<Address>): (r: seq<Address>)
    ensures |r| == |list|
  {
    if list == [] then [] else Insert(list[0], SortAddresses(list[1..]))
  }

  /** Sorting keeps every address and ranks them. */
  lemma {:induction false} SortAddressesSpec(list: seq<Address>)
    ensures multiset(SortAddresses(list)) == multiset(list)
    ensures Ranked(SortAddresses(list))
    decreases |list|
  {
    if list != [] {
      SortAddressesSpec(list[1..]);
      InsertSpec(list[0], SortAddresses(list[1..]));
      assert list == [list[0]] + list[1..];
    }
  }

  /** AddressBasedConflictGraph::address_rank: the address names, in the
      order of some ranked permutation of the addresses. */
  function AddressRank(list: seq<Address>): (ranked: seq<string>)
    ensures |ranked| == |list|
    ensures exists s :: Ranked(s) && multiset(s) == multiset(list) && ranked == Names(s)
  {
    var s := SortAddresses(list);
    SortAddressesSpec(list);
    Names(s)
  }

  /** The names of a list of addresses, in order. */
  function Names(s: seq<Address>): (r: seq<string>)
    ensures |r| == |s|
    ensures forall i :: 0 <= i < |s| ==> r[i] == s[i].address
  {
    seq(|s|, i requires 0 <= i < |s| => s[i].address)
  }

  /** With distinct address names the ranked list is strictly ordered by the
      comparator. */
  lemma RankedIsStrict(s: seq<Address>)
    requires Ranked(s)
    requires forall i, j :: 0 <= i < j < |s| ==> s[i].address != s[j].address
    ensures forall i, j :: 0 <= i < j < |s| ==> RankBefore(s[i], s[j])
  {
    forall i, j | 0 <= i < j < |s| ensures RankBefore(s[i], s[j]) {
      RankBeforeStrictTotal(s[i], s[j], s[j]);
    }
  }

  /** The aborted transactions of `l`, in order. */
  function AbortedOf(l: seq<nat>, ab: set<nat>): seq<nat> {
    if l == [] then [] else (if l[0] in ab then [l[0]] else []) + AbortedOf(l[1..], ab)
  }

  /** The live transactions of `l`, in order. */
  function LiveOf(l: seq<nat>, ab: set<nat>): (r: seq<nat>)
    ensures forall x :: x in r ==> x !in ab
  {
    if l == [] then [] else (if l[0] in ab then [] else [l[0]]) + LiveOf(l[1..], ab)
  }

  /** `s` without its first occurrence of `x` (unchanged when there is none),
      as vector::erase after std::find does. */
  function RemoveFirst(s: seq<nat>, x: nat): (r: seq<nat>)
    ensures x in s ==> |r| == |s| - 1
    ensures x !in s ==> r == s
  {
    if s == [] then []
    else if s[0] == x then s[1..]
    else [s[0]] + RemoveFirst(s[1..], x)
  }

  /** `s` after erasing the first occurrence of each of `xs` in turn. */
  function RemoveAll(s: seq<nat>, xs: seq<nat>): seq<nat>
    decreases xs
  {
    if xs == [] then s else RemoveAll(RemoveFirst(s, xs[0]), xs[1..])
  }

  /** Where std::find stops, the erase takes out that element. */
  lemma {:induction false} RemoveFirstAt(s: seq<nat>, x: nat, pos: nat)
    requires pos <= |s| && forall j :: 0 <= j < pos ==> s[j] != x
    requires pos < |s| ==> s[pos] == x
    ensures RemoveFirst(s, x) == if pos < |s| then s[..pos] + s[pos + 1..] else s
    decreases pos
  {
    if pos == |s| {
      assert x !in s by {
        forall j | 0 <= j < |s| ensures s[j] != x {}
      }
    } else if pos > 0 {
      RemoveFirstAt(s[1..], x, pos - 1);
      assert s[..pos] == [s[0]] + s[1..][..pos - 1];
      assert s[pos + 1..] == s[1..][pos..];
    }
  }

  /** Erasing values other than `y` leaves a leading `y` in front. */
  lemma {:induction false} RemoveAllKeepsHead(y: nat, t: seq<nat>, xs: seq<nat>)
    requires y !in xs
    ensures RemoveAll([y] + t, xs) == [y] + RemoveAll(t, xs)
    decreases |xs|
  {
    if xs != [] {
      assert ([y] + t)[1..] == t;
      RemoveAllKeepsHead(y, RemoveFirst(t, xs[0]), xs[1..]);
    }
  }

  /** Erasing the aborted transactions of `l` leaves exactly its live ones. */
  lemma {:induction false} EraseAbortedLeavesLive(l: seq<nat>, ab: set<nat>)
    ensures RemoveAll(l, AbortedOf(l, ab)) == LiveOf(l, ab)
    ensures forall x :: x in AbortedOf(l, ab) ==> x in ab
    decreases |l|
  {
    if l != [] {
      EraseAbortedLeavesLive(l[1..], ab);
      assert l == [l[0]] + l[1..];
      if l[0] !in ab {
        assert AbortedOf(l, ab) == AbortedOf(l[1..], ab);
        assert l[0] !in AbortedOf(l[1..], ab);
        RemoveAllKeepsHead(l[0], l[1..], AbortedOf(l[1..], ab));
      } else {
        assert AbortedOf(l, ab) == [l[0]] + AbortedOf(l[1..], ab);
      }
    }
  }

  /** The first loop of extract_abortList: the aborted transactions, in order. */
  method CollectAborted(l: seq<nat>, ab: set<nat>) returns (toErase: seq<nat>)
    ensures toErase == AbortedOf(l, ab)
  {
    toErase := [];
    var i := 0;
    while i < |l|
      invariant 0 <= i <= |l|
      invariant toErase + AbortedOf(l[i..], ab) == AbortedOf(l, ab)
    {
      assert l[i..][1..] == l[i + 1..];
      if l[i] in ab {
        toErase := toErase + [l[i]];
      }
      i := i + 1;
    }
    assert l[i..] == [];
  }

  /** std::find, then erase when found. */
  method EraseFirst(cur: seq<nat>, x: nat) returns (r: seq<nat>)
    ensures r == RemoveFirst(cur, x)
  {
    var pos := 0;
    while pos < |cur| && cur[pos] != x
      invariant 0 <= pos <= |cur|
      invariant forall j :: 0 <= j < pos ==> cur[j] != x
    {
      pos := pos + 1;
    }
    RemoveFirstAt(cur, x, pos);
    if pos < |cur| {
      r := cur[..pos] + cur[pos + 1..];
    } else {
      r := cur;
    }
  }

  /** The second loop of extract_abortList. */
  method EraseAll(l: seq<nat>, toErase: seq<nat>) returns (r: seq<nat>)
    ensures r == RemoveAll(l, toErase)
  {
    r := l;
    var k := 0;
    while k < |toErase|
      invariant 0 <= k <= |toErase|
      invariant RemoveAll(r, toErase[k..]) == RemoveAll(l, toErase)
    {
      assert toErase[k..][1..] == toErase[k + 1..];
      r := EraseFirst(r, toErase[k]);
      k := k + 1;
    }
  }

  /** The part of the graph the updater check and the abort extraction use. */
  class ConflictGraph {
    var addresses: map<string, Address>
    var txList: seq<nat>
    var abortedTxs: seq<nat>

    constructor ()
      ensures addresses == map[] && txList == [] && abortedTxs == []
    {
      addresses := map[];
      txList := [];
      abortedTxs := [];
    }

    /** A co-located write unit at an address that already has a first
        updater. */
    predicate UpdaterTaken(u: Unit)
      reads this
    {
      u.coLocated && u.address in addresses && addresses[u.address].firstUpdaterFlag
    }

    /** check_updater_already_exist_in_same_address: some co-located write unit
        sits at an address that already has a first updater. */
    method CheckUpdaterAlreadyExist(writeUnits: seq<Unit>) returns (r: bool)
      ensures r <==> exists i :: 0 <= i < |writeUnits| && UpdaterTaken(writeUnits[i])
    {
      var i := 0;
      while i < |writeUnits|
        invariant 0 <= i <= |writeUnits|
        invariant forall j :: 0 <= j < i ==> !UpdaterTaken(writeUnits[j])
      {
        var unit := writeUnits[i];
        if unit.coLocated {
          if unit.address in addresses && addresses[unit.address].firstUpdaterFlag {
            return true;
          }
        }
        i := i + 1;
      }
      return false;
    }

    /** extract_abortList: the aborted transactions of tx_list are appended to
        aborted_txs and erased from tx_list one by one (first occurrence
        first); the returned list stays empty. */
    method ExtractAbortList(txs: Txs) returns (abortedList: seq<nat>)
      modifies this
      ensures abortedList == [] && addresses == old(addresses)
      ensures abortedTxs == old(abortedTxs) + AbortedOf(old(txList), txs.aborted)
      ensures txList == LiveOf(old(txList), txs.aborted)
    {
      abortedList := [];
      var toErase := CollectAborted(txList, txs.aborted);
      abortedTxs := abortedTxs + toErase;
      EraseAbortedLeavesLive(txList, txs.aborted);
      txList := EraseAll(txList, toErase);
    }
  }
}
