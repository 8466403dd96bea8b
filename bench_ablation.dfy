/** The ablation harness (scripts/bench/bench-ablation.py): for one protocol
    configuration it runs the benchmark `repeat` times, folds the figures each
    run prints into running sums (or, for configurations whose last flag is
    TRUE, into a minimum, a maximum and a snapshot of the run with the highest
    concurrency ratio), and turns the fold into one table row.

    A run's output is modelled by the figures the regular expressions find in
    it: each is `None` when its pattern does not match (or `float` rejects the
    text), which raises inside the `try` and ends that run's contribution. */
module BenchAblation {
  import opened Wrappers
  import ArgParse

  // ------------------------------------------------------------- get_name

  /** The flag word the script writes into a descriptor. */
  function Flag(b: bool): string {
    if b then "TRUE" else "FALSE"
  }

  /** get_name: the display name chosen by the last two ':'-separated fields of
      the descriptor; `None` (Python's None) for any other pair of words.  A
      descriptor without two fields raises IndexError. */
  function GetName(protocol: string): (r: Result<Option<string>>)
    ensures r.Err? <==> |ArgParse.Pieces(protocol)| < 2
  {
    var toks := ArgParse.Pieces(protocol);
    if |toks| < 2 then Err("list index out of range")
    else
      var second, last := toks[|toks| - 2], toks[|toks| - 1];
      if second == "TRUE" && last == "TRUE" then Ok(Some("Loom"))
      else if second == "TRUE" && last == "FALSE" then Ok(Some("LoomFR"))
      else if second == "FALSE" && last == "TRUE" then Ok(Some("LoomMP"))
      else if second == "FALSE" && last == "FALSE" then Ok(Some("LoomRaw"))
      else Ok(None)
  }

  /** The display names of the four Loom variants by their (second-last, last)
      flags: both on is Loom, only the first is LoomFR, only the second is
      LoomMP, neither is LoomRaw. */
  function VariantName(a: bool, b: bool): string {
    if a && b then "Loom" else if a then "LoomFR" else if b then "LoomMP" else "LoomRaw"
  }

  /** Distinct flag pairs get distinct names. */
  lemma VariantNamesDistinct(a: bool, b: bool, a': bool, b': bool)
    requires (a, b) != (a', b')
    ensures VariantName(a, b) != VariantName(a', b')
  {
    assert "Loom" != "LoomFR" && "Loom" != "LoomMP" && "Loom" != "LoomRaw";
    assert "LoomFR"[4] == 'F' && "LoomMP"[4] == 'M' && "LoomRaw"[4] == 'R';
  }

  /** get_name names a descriptor ending in two flag words after its variant. */
  lemma GetNameOfFlags(fields: seq<string>, a: bool, b: bool)
    requires forall k :: 0 <= k < |fields| ==> ArgParse.NoColon(fields[k])
    ensures GetName(ArgParse.Join(fields + [Flag(a), Flag(b)])) == Ok(Some(VariantName(a, b)))
  {
    var toks := fields + [Flag(a), Flag(b)];
    FlagsSplit(fields, a, b);
    assert toks[|toks| - 2] == Flag(a) && toks[|toks| - 1] == Flag(b);
    NameOfLastTwo(ArgParse.Join(toks), a, b);
  }

  /** get_name reads only the last two fields. */
  lemma NameOfLastTwo(protocol: string, a: bool, b: bool)
    requires var toks := ArgParse.Pieces(protocol);
      |toks| >= 2 && toks[|toks| - 2] == Flag(a) && toks[|toks| - 1] == Flag(b)
    ensures GetName(protocol) == Ok(Some(VariantName(a, b)))
  {
    assert "TRUE" != "FALSE" by {
      assert "TRUE"[0] != "FALSE"[0];
    }
  }

  lemma FlagsSplit(fields: seq<string>, a: bool, b: bool)
    requires forall k :: 0 <= k < |fields| ==> ArgParse.NoColon(fields[k])
    ensures ArgParse.Pieces(ArgParse.Join(fields + [Flag(a), Flag(b)])) == fields + [Flag(a), Flag(b)]
  {
    var toks := fields + [Flag(a), Flag(b)];
    FlagNoColon(a);
    FlagNoColon(b);
    forall k | 0 <= k < |toks| ensures ArgParse.NoColon(toks[k]) {
      if k < |fields| {
        assert toks[k] == fields[k];
      } else if k == |fields| {
        assert toks[k] == Flag(a);
      } else {
        assert toks[k] == Flag(b);
      }
    }
    ArgParse.JoinPieces(toks);
  }

  lemma FlagNoColon(b: bool)
    ensures ArgParse.NoColon(Flag(b))
  {
    var f := Flag(b);
    forall i | 0 <= i < |f| ensures f[i] != ':' {
      if b { assert f == "TRUE"; } else { assert f == "FALSE"; }
    }
  }

  // ---------------------------------------------------------------- trials

  /** The figures one run prints, in the order the script reads them. */
  datatype Trial = Trial(
    commit: Option<real>, execution: Option<real>, overhead: Option<real>,
    rollback: Option<real>, rollbackRatio: Option<real>,
    txLatency: Option<real>, blockLatency: Option<real>, tps: Option<real>,
    concurrencyRatio: Option<real>, reExecuteLatency: Option<real>,
    rollbackLatency: Option<real>, executeLatency: Option<real>)

  /** A run whose output holds every figure: it never raises. */
  predicate Full(t: Trial) {
    t.commit.Some? && t.execution.Some? && t.overhead.Some? && t.rollback.Some? &&
    t.rollbackRatio.Some? && t.txLatency.Some? && t.blockLatency.Some? && t.tps.Some? &&
    t.concurrencyRatio.Some? && t.reExecuteLatency.Some? && t.rollbackLatency.Some? &&
    t.executeLatency.Some?
  }

  function TxOf(t: Trial): real requires Full(t) { t.txLatency.value }
  function BlockOf(t: Trial): real requires Full(t) { t.blockLatency.value }
  function TpsOf(t: Trial): real requires Full(t) { t.tps.value }
  function RatioOf(t: Trial): real requires Full(t) { t.concurrencyRatio.value }

  /** Python floats with their infinities, for the min/max starting values. */
  datatype Ext = NegInf | Fin(x: real) | PosInf

  function MinExt(a: Ext, b: real): Ext {
    match a
    case PosInf => Fin(b)
    case NegInf => NegInf
    case Fin(x) => if b < x then Fin(b) else Fin(x)
  }

  function MaxExt(a: Ext, b: real): Ext {
    match a
    case NegInf => Fin(b)
    case PosInf => PosInf
    case Fin(x) => if b > x then Fin(b) else Fin(x)
  }

  /** The script's variables for one configuration.  The three snapshot
      latencies are plain Python variables: they are unset (`None`) until a run
      beats the concurrency ratio, and they outlive the configuration. */
  datatype Acc = Acc(
    sumCommit: real, sumExecution: real, sumOverhead: real, sumRollback: real,
    sumRollbackRatio: real, sumTxLatency: real, sumBlockLatency: real, sumTps: real,
    sumExecutionLatency: real, sumRollbackLatency: real, sumReExecuteLatency: real,
    sumConcurrencyRatio: real,
    txLatency: Ext, blockLatency: Ext, tps: Ext, concurrencyRatio: real,
    reExecuteLatency: Option<real>, rollbackLatency: Option<real>, executionLatency: Option<real>,
    succeedRepeat: nat)

  /** The variables as a configuration starts: zero sums, +inf latencies and
      -inf tps, ratio 0, no successful run; the snapshot carries over. */
  function Start(snapshot: (Option<real>, Option<real>, Option<real>)): Acc {
    Acc(0.0, 0.0, 0.0, 0.0, 0.0, 0.0, 0.0, 0.0, 0.0, 0.0, 0.0, 0.0,
        PosInf, PosInf, NegInf, 0.0, snapshot.0, snapshot.1, snapshot.2, 0)
  }

  /** One pass of the `try` block.  Every figure read is added before the next
      is looked for, so a run that raises half way keeps what it added;
      `succeed_repeat` grows only when the whole block completes.  `extremum`
      is "the descriptor's last field is TRUE". */
  function Step(a: Acc, t: Trial, extremum: bool): Acc {
    if t.commit.None? then a else
    var a1 := a.(sumCommit := a.sumCommit + t.commit.value);
    if t.execution.None? then a1 else
    var a2 := a1.(sumExecution := a1.sumExecution + t.execution.value);
    if t.overhead.None? then a2 else
    var a3 := a2.(sumOverhead := a2.sumOverhead + t.overhead.value);
    if t.rollback.None? then a3 else
    var a4 := a3.(sumRollback := a3.sumRollback + t.rollback.value);
    if t.rollbackRatio.None? then a4 else
    var a5 := a4.(sumRollbackRatio := a4.sumRollbackRatio + t.rollbackRatio.value);
    if extremum then
      if t.txLatency.None? then a5 else
      var b1 := a5.(txLatency := MinExt(a5.txLatency, t.txLatency.value));
      if t.blockLatency.None? then b1 else
      var b2 := b1.(blockLatency := MinExt(b1.blockLatency, t.blockLatency.value));
      if t.tps.None? then b2 else
      var b3 := b2.(tps := MaxExt(b2.tps, t.tps.value));
      if t.concurrencyRatio.None? then b3 else
      if t.concurrencyRatio.value > b3.concurrencyRatio then
        var b4 := b3.(concurrencyRatio := t.concurrencyRatio.value);
        if t.reExecuteLatency.None? then b4 else
        var b5 := b4.(reExecuteLatency := t.reExecuteLatency);
        if t.rollbackLatency.None? then b5 else
        var b6 := b5.(rollbackLatency := t.rollbackLatency);
        if t.executeLatency.None? then b6 else
        var b7 := b6.(executionLatency := t.executeLatency);
        b7.(succeedRepeat := b7.succeedRepeat + 1)
      else
        b3.(succeedRepeat := b3.succeedRepeat + 1)
    else
      if t.txLatency.None? then a5 else
      var c1 := a5.(sumTxLatency := a5.sumTxLatency + t.txLatency.value);
      if t.blockLatency.None? then c1 else
      var c2 := c1.(sumBlockLatency := c1.sumBlockLatency + t.blockLatency.value);
      if t.tps.None? then c2 else
      var c3 := c2.(sumTps := c2.sumTps + t.tps.value);
      if t.executeLatency.None? then c3 else
      var c4 := c3.(sumExecutionLatency := c3.sumExecutionLatency + t.executeLatency.value);
      if t.rollbackLatency.None? then c4 else
      var c5 := c4.(sumRollbackLatency := c4.sumRollbackLatency + t.rollbackLatency.value);
      if t.reExecuteLatency.None? then c5 else
      var c6 := c5.(sumReExecuteLatency := c5.sumReExecuteLatency + t.reExecuteLatency.value);
      if t.concurrencyRatio.None? then c6 else
      var c7 := c6.(sumConcurrencyRatio := c6.sumConcurrencyRatio + t.concurrencyRatio.value);
      c7.(succeedRepeat := c7.succeedRepeat + 1)
  }

  /** The runs folded one after the other, left to right. */
  function Fold(a: Acc, ts: seq<Trial>, extremum: bool): Acc
    decreases |ts|
  {
    if |ts| == 0 then a else Step(Fold(a, ts[..|ts| - 1], extremum), ts[|ts| - 1], extremum)
  }

  /** The trial loop of one configuration, as the script runs it. */
  method RunTrials(ts: seq<Trial>, extremum: bool, init: Acc) returns (acc: Acc)
    ensures acc == Fold(init, ts, extremum)
  {
    acc := init;
    for i := 0 to |ts|
      invariant acc == Fold(init, ts[..i], extremum)
    {
      FoldLast(init, ts[..i + 1], extremum);
      assert ts[..i + 1][..i] == ts[..i];
      acc := Attempt(acc, ts[i], extremum);
    }
    assert ts[..|ts|] == ts;
  }

  /** One pass of the `try` block: the labelled block, which a missing figure
      leaves early. */
  method Attempt(acc0: Acc, t: Trial, extremum: bool) returns (acc: Acc)
    ensures acc == Step(acc0, t, extremum)
  {
    acc := acc0;
    label attempt: {
      if t.commit.None? { break attempt; }
      acc := acc.(sumCommit := acc.sumCommit + t.commit.value);
      if t.execution.None? { break attempt; }
      acc := acc.(sumExecution := acc.sumExecution + t.execution.value);
      if t.overhead.None? { break attempt; }
      acc := acc.(sumOverhead := acc.sumOverhead + t.overhead.value);
      if t.rollback.None? { break attempt; }
      acc := acc.(sumRollback := acc.sumRollback + t.rollback.value);
      if t.rollbackRatio.None? { break attempt; }
      acc := acc.(sumRollbackRatio := acc.sumRollbackRatio + t.rollbackRatio.value);
      if extremum {
        if t.txLatency.None? { break attempt; }
        acc := acc.(txLatency := MinExt(acc.txLatency, t.txLatency.value));
        if t.blockLatency.None? { break attempt; }
        acc := acc.(blockLatency := MinExt(acc.blockLatency, t.blockLatency.value));
        if t.tps.None? { break attempt; }
        acc := acc.(tps := MaxExt(acc.tps, t.tps.value));
        if t.concurrencyRatio.None? { break attempt; }
        if t.concurrencyRatio.value > acc.concurrencyRatio {
          acc := acc.(concurrencyRatio := t.concurrencyRatio.value);
          if t.reExecuteLatency.None? { break attempt; }
          acc := acc.(reExecuteLatency := t.reExecuteLatency);
          if t.rollbackLatency.None? { break attempt; }
          acc := acc.(rollbackLatency := t.rollbackLatency);
          if t.executeLatency.None? { break attempt; }
          acc := acc.(executionLatency := t.executeLatency);
        }
      } else {
        if t.txLatency.None? { break attempt; }
        acc := acc.(sumTxLatency := acc.sumTxLatency + t.txLatency.value);
        if t.blockLatency.None? { break attempt; }
        acc := acc.(sumBlockLatency := acc.sumBlockLatency + t.blockLatency.value);
        if t.tps.None? { break attempt; }
        acc := acc.(sumTps := acc.sumTps + t.tps.value);
        if t.executeLatency.None? { break attempt; }
        acc := acc.(sumExecutionLatency := acc.sumExecutionLatency + t.executeLatency.value);
        if t.rollbackLatency.None? { break attempt; }
        acc := acc.(sumRollbackLatency := acc.sumRollbackLatency + t.rollbackLatency.value);
        if t.reExecuteLatency.None? { break attempt; }
        acc := acc.(sumReExecuteLatency := acc.sumReExecuteLatency + t.reExecuteLatency.value);
        if t.concurrencyRatio.None? { break attempt; }
        acc := acc.(sumConcurrencyRatio := acc.sumConcurrencyRatio + t.concurrencyRatio.value);
      }
      acc := acc.(succeedRepeat := acc.succeedRepeat + 1);
    }
  }

  // ------------------------------------------------- what the fold computes

  /** The commit figures of the runs that printed one. */
  function SumCommit(ts: seq<Trial>): real
    decreases |ts|
  {
    if |ts| == 0 then 0.0
    else SumCommit(ts[..|ts| - 1]) + (if ts[|ts| - 1].commit.Some? then ts[|ts| - 1].commit.value else 0.0)
  }

  /** The number of runs that never raise. */
  function CountFull(ts: seq<Trial>): nat
    decreases |ts|
  {
    if |ts| == 0 then 0 else CountFull(ts[..|ts| - 1]) + (if Full(ts[|ts| - 1]) then 1 else 0)
  }

  /** A failed run is not counted, but the commit figure it printed stays in
      the sum: sum_commit is the total over every run that printed one, whether
      or not that run later raised. */
  lemma {:induction false} CommitSumKeepsFailedRuns(init: Acc, ts: seq<Trial>, extremum: bool)
    ensures Fold(init, ts, extremum).sumCommit == init.sumCommit + SumCommit(ts)
    decreases |ts|
  {
    if |ts| > 0 {
      CommitSumKeepsFailedRuns(init, ts[..|ts| - 1], extremum);
    }
  }

  /** Every run that prints all its figures is counted once. */
  lemma {:induction false} FullRunsCount(init: Acc, ts: seq<Trial>, extremum: bool)
    requires forall k :: 0 <= k < |ts| ==> Full(ts[k])
    ensures Fold(init, ts, extremum).succeedRepeat == init.succeedRepeat + |ts|
    ensures CountFull(ts) == |ts|
    decreases |ts|
  {
    if |ts| > 0 {
      FullRunsCount(init, ts[..|ts| - 1], extremum);
    }
  }

  /** What one complete run does to the extrema and the snapshot when the
      last flag is TRUE. */
  lemma FullExtremumStep(p: Acc, t: Trial)
    requires Full(t)
    ensures var a := Step(p, t, true);
      a.txLatency == MinExt(p.txLatency, TxOf(t)) &&
      a.blockLatency == MinExt(p.blockLatency, BlockOf(t)) &&
      a.tps == MaxExt(p.tps, TpsOf(t)) &&
      (RatioOf(t) > p.concurrencyRatio ==>
        a.concurrencyRatio == RatioOf(t) &&
        (a.reExecuteLatency, a.rollbackLatency, a.executionLatency) ==
          (t.reExecuteLatency, t.rollbackLatency, t.executeLatency)) &&
      (RatioOf(t) <= p.concurrencyRatio ==>
        a.concurrencyRatio == p.concurrencyRatio &&
        (a.reExecuteLatency, a.rollbackLatency, a.executionLatency) ==
          (p.reExecuteLatency, p.rollbackLatency, p.executionLatency))
  {
  }

  /** The fold over a non-empty list is one more step after the fold over
      all but the last run. */
  lemma FoldLast(init: Acc, ts: seq<Trial>, extremum: bool)
    requires |ts| > 0
    ensures Fold(init, ts, extremum) == Step(Fold(init, ts[..|ts| - 1], extremum), ts[|ts| - 1], extremum)
  {
  }

  /** With the last flag TRUE and every run complete, tx_latency and
      block_latency are the least figure over the runs and tps the greatest. */
  lemma ExtremaOverRuns(ts: seq<Trial>, snapshot: (Option<real>, Option<real>, Option<real>))
    requires |ts| > 0 && forall k :: 0 <= k < |ts| ==> Full(ts[k])
    ensures var a := Fold(Start(snapshot), ts, true);
      a.txLatency.Fin? && a.blockLatency.Fin? && a.tps.Fin? &&
      (forall k :: 0 <= k < |ts| ==>
        a.txLatency.x <= TxOf(ts[k]) && a.blockLatency.x <= BlockOf(ts[k]) &&
        a.tps.x >= TpsOf(ts[k])) &&
      (exists k :: 0 <= k < |ts| && a.txLatency.x == TxOf(ts[k])) &&
      (exists k :: 0 <= k < |ts| && a.blockLatency.x == BlockOf(ts[k])) &&
      (exists k :: 0 <= k < |ts| && a.tps.x == TpsOf(ts[k]))
  {
    LeastTxLatency(ts, snapshot);
    LeastBlockLatency(ts, snapshot);
    GreatestTps(ts, snapshot);
  }

  lemma {:induction false} LeastTxLatency(ts: seq<Trial>, snapshot: (Option<real>, Option<real>, Option<real>))
    requires |ts| > 0 && forall k :: 0 <= k < |ts| ==> Full(ts[k])
    ensures var m := Fold(Start(snapshot), ts, true).txLatency;
      m.Fin? && (forall k :: 0 <= k < |ts| ==> m.x <= TxOf(ts[k])) &&
      (exists k :: 0 <= k < |ts| && m.x == TxOf(ts[k]))
    decreases |ts|
  {
    var n := |ts| - 1;
    var pre := ts[..n];
    var p := Fold(Start(snapshot), pre, true);
    FoldLast(Start(snapshot), ts, true);
    FullExtremumStep(p, ts[n]);
    var m := Fold(Start(snapshot), ts, true).txLatency;
    if n == 0 {
      assert p == Start(snapshot);
      assert m.x == TxOf(ts[0]);
    } else {
      LeastTxLatency(pre, snapshot);
      var i :| 0 <= i < n && p.txLatency.x == TxOf(pre[i]);
      forall k | 0 <= k < |ts| ensures m.x <= TxOf(ts[k]) {
        if k < n { assert pre[k] == ts[k]; }
      }
      if m.x != TxOf(ts[n]) { assert pre[i] == ts[i]; }
    }
  }

  lemma {:induction false} LeastBlockLatency(ts: seq<Trial>, snapshot: (Option<real>, Option<real>, Option<real>))
    requires |ts| > 0 && forall k :: 0 <= k < |ts| ==> Full(ts[k])
    ensures var m := Fold(Start(snapshot), ts, true).blockLatency;
      m.Fin? && (forall k :: 0 <= k < |ts| ==> m.x <= BlockOf(ts[k])) &&
      (exists k :: 0 <= k < |ts| && m.x == BlockOf(ts[k]))
    decreases |ts|
  {
    var n := |ts| - 1;
    var pre := ts[..n];
    var p := Fold(Start(snapshot), pre, true);
    FoldLast(Start(snapshot), ts, true);
    FullExtremumStep(p, ts[n]);
    var m := Fold(Start(snapshot), ts, true).blockLatency;
    if n == 0 {
      assert p == Start(snapshot);
      assert m.x == BlockOf(ts[0]);
    } else {
      LeastBlockLatency(pre, snapshot);
      var i :| 0 <= i < n && p.blockLatency.x == BlockOf(pre[i]);
      forall k | 0 <= k < |ts| ensures m.x <= BlockOf(ts[k]) {
        if k < n { assert pre[k] == ts[k]; }
      }
      if m.x != BlockOf(ts[n]) { assert pre[i] == ts[i]; }
    }
  }

  lemma {:induction false} GreatestTps(ts: seq<Trial>, snapshot: (Option<real>, Option<real>, Option<real>))
    requires |ts| > 0 && forall k :: 0 <= k < |ts| ==> Full(ts[k])
    ensures var m := Fold(Start(snapshot), ts, true).tps;
      m.Fin? && (forall k :: 0 <= k < |ts| ==> m.x >= TpsOf(ts[k])) &&
      (exists k :: 0 <= k < |ts| && m.x == TpsOf(ts[k]))
    decreases |ts|
  {
    var n := |ts| - 1;
    var pre := ts[..n];
    var p := Fold(Start(snapshot), pre, true);
    FoldLast(Start(snapshot), ts, true);
    FullExtremumStep(p, ts[n]);
    var m := Fold(Start(snapshot), ts, true).tps;
    if n == 0 {
      assert p == Start(snapshot);
      assert m.x == TpsOf(ts[0]);
    } else {
      GreatestTps(pre, snapshot);
      var i :| 0 <= i < n && p.tps.x == TpsOf(pre[i]);
      forall k | 0 <= k < |ts| ensures m.x >= TpsOf(ts[k]) {
        if k < n { assert pre[k] == ts[k]; }
      }
      if m.x != TpsOf(ts[n]) { assert pre[i] == ts[i]; }
    }
  }

  /** With the last flag TRUE and every run complete, the breakdown latencies
      are those of the first run whose concurrency ratio is the highest, as long
      as some run's ratio beats 0; otherwise they are whatever they were. */
  lemma SnapshotOfBestRun(ts: seq<Trial>, snapshot: (Option<real>, Option<real>, Option<real>))
    requires forall k :: 0 <= k < |ts| ==> Full(ts[k])
    ensures var a := Fold(Start(snapshot), ts, true);
      ((forall k :: 0 <= k < |ts| ==> RatioOf(ts[k]) <= 0.0) ==>
        a.concurrencyRatio == 0.0 &&
        (a.reExecuteLatency, a.rollbackLatency, a.executionLatency) == snapshot) &&
      ((exists k :: 0 <= k < |ts| && RatioOf(ts[k]) > 0.0) ==>
        exists k :: 0 <= k < |ts| &&
          a.concurrencyRatio == RatioOf(ts[k]) &&
          (forall j :: 0 <= j < |ts| ==> RatioOf(ts[j]) <= a.concurrencyRatio) &&
          (forall j :: 0 <= j < k ==> RatioOf(ts[j]) < a.concurrencyRatio) &&
          (a.reExecuteLatency, a.rollbackLatency, a.executionLatency) ==
            (ts[k].reExecuteLatency, ts[k].rollbackLatency, ts[k].executeLatency))
  {
    if forall k :: 0 <= k < |ts| ==> RatioOf(ts[k]) <= 0.0 {
      NoRatioKeepsSnapshot(ts, snapshot);
    } else {
      BestRunSnapshot(ts, snapshot);
    }
  }

  /** The `k`-th run is the first of those with the highest concurrency ratio,
      and `a` holds that ratio and that run's breakdown latencies. */
  ghost predicate BestAt(ts: seq<Trial>, k: int, a: Acc)
    requires forall j :: 0 <= j < |ts| ==> Full(ts[j])
  {
    0 <= k < |ts| &&
    a.concurrencyRatio == RatioOf(ts[k]) &&
    (forall j :: 0 <= j < |ts| ==> RatioOf(ts[j]) <= a.concurrencyRatio) &&
    (forall j :: 0 <= j < k ==> RatioOf(ts[j]) < a.concurrencyRatio) &&
    (a.reExecuteLatency, a.rollbackLatency, a.executionLatency) ==
      (ts[k].reExecuteLatency, ts[k].rollbackLatency, ts[k].executeLatency)
  }

  /** No ratio above 0: the ratio stays 0 and the snapshot is not taken. */
  lemma {:induction false} NoRatioKeepsSnapshot(ts: seq<Trial>, snapshot: (Option<real>, Option<real>, Option<real>))
    requires forall k :: 0 <= k < |ts| ==> Full(ts[k]) && RatioOf(ts[k]) <= 0.0
    ensures var a := Fold(Start(snapshot), ts, true);
      a.concurrencyRatio == 0.0 && (a.reExecuteLatency, a.rollbackLatency, a.executionLatency) == snapshot
    decreases |ts|
  {
    if |ts| > 0 {
      var n := |ts| - 1;
      var pre := ts[..n];
      forall k | 0 <= k < |pre| ensures Full(pre[k]) && RatioOf(pre[k]) <= 0.0 {
        assert pre[k] == ts[k];
      }
      NoRatioKeepsSnapshot(pre, snapshot);
      FoldLast(Start(snapshot), ts, true);
      FullExtremumStep(Fold(Start(snapshot), pre, true), ts[n]);
    }
  }

  /** Some ratio above 0: the snapshot is that of the first best run. */
  lemma {:induction false} BestRunSnapshot(ts: seq<Trial>, snapshot: (Option<real>, Option<real>, Option<real>))
    requires forall k :: 0 <= k < |ts| ==> Full(ts[k])
    requires exists k :: 0 <= k < |ts| && RatioOf(ts[k]) > 0.0
    ensures exists k :: BestAt(ts, k, Fold(Start(snapshot), ts, true))
    decreases |ts|
  {
    var n := |ts| - 1;
    var pre := ts[..n];
    PrefixFull(ts);
    var p := Fold(Start(snapshot), pre, true);
    if exists k :: 0 <= k < |pre| && RatioOf(pre[k]) > 0.0 {
      BestRunSnapshot(pre, snapshot);
    } else {
      NoRatioKeepsSnapshot(pre, snapshot);
    }
    FoldLast(Start(snapshot), ts, true);
    FullExtremumStep(p, ts[n]);
    BestStep(ts, p, Fold(Start(snapshot), ts, true));
  }

  lemma PrefixFull(ts: seq<Trial>)
    requires |ts| > 0 && forall k :: 0 <= k < |ts| ==> Full(ts[k])
    ensures forall k :: 0 <= k < |ts| - 1 ==> Full(ts[..|ts| - 1][k]) && ts[..|ts| - 1][k] == ts[k]
  {
  }

  /** One run more: the best run so far stays best unless the new run's
      ratio beats it. */
  lemma BestStep(ts: seq<Trial>, p: Acc, a: Acc)
    requires |ts| > 0 && forall k :: 0 <= k < |ts| ==> Full(ts[k])
    requires exists k :: 0 <= k < |ts| && RatioOf(ts[k]) > 0.0
    requires var pre := ts[..|ts| - 1];
      forall k :: 0 <= k < |pre| ==> Full(pre[k])
    requires var pre := ts[..|ts| - 1];
      if exists k :: 0 <= k < |pre| && RatioOf(pre[k]) > 0.0 then exists k :: BestAt(pre, k, p)
      else p.concurrencyRatio == 0.0
    requires var t := ts[|ts| - 1];
      (RatioOf(t) > p.concurrencyRatio ==>
        a.concurrencyRatio == RatioOf(t) &&
        (a.reExecuteLatency, a.rollbackLatency, a.executionLatency) ==
          (t.reExecuteLatency, t.rollbackLatency, t.executeLatency)) &&
      (RatioOf(t) <= p.concurrencyRatio ==>
        a.concurrencyRatio == p.concurrencyRatio &&
        (a.reExecuteLatency, a.rollbackLatency, a.executionLatency) ==
          (p.reExecuteLatency, p.rollbackLatency, p.executionLatency))
    ensures exists k :: BestAt(ts, k, a)
  {
    var n := |ts| - 1;
    var pre := ts[..n];
    assert forall k :: 0 <= k < n ==> pre[k] == ts[k];
    if exists k :: 0 <= k < |pre| && RatioOf(pre[k]) > 0.0 {
      var k :| BestAt(pre, k, p);
      if RatioOf(ts[n]) > p.concurrencyRatio {
        BestIsLast(ts, a);
      } else {
        BestStays(ts, k, p, a);
      }
    } else {
      var k0 :| 0 <= k0 < |ts| && RatioOf(ts[k0]) > 0.0;
      if k0 < n {
        assert false;
      }
      BestIsLast(ts, a);
    }
  }

  lemma BestIsLast(ts: seq<Trial>, a: Acc)
    requires |ts| > 0 && forall j :: 0 <= j < |ts| ==> Full(ts[j])
    requires forall j :: 0 <= j < |ts| - 1 ==> RatioOf(ts[j]) < a.concurrencyRatio
    requires a.concurrencyRatio == RatioOf(ts[|ts| - 1])
    requires (a.reExecuteLatency, a.rollbackLatency, a.executionLatency) ==
      (ts[|ts| - 1].reExecuteLatency, ts[|ts| - 1].rollbackLatency, ts[|ts| - 1].executeLatency)
    ensures BestAt(ts, |ts| - 1, a)
  {
  }

  lemma BestStays(ts: seq<Trial>, k: int, p: Acc, a: Acc)
    requires |ts| > 0 && forall j :: 0 <= j < |ts| ==> Full(ts[j])
    requires BestAt(ts[..|ts| - 1], k, p)
    requires RatioOf(ts[|ts| - 1]) <= p.concurrencyRatio
    requires a.concurrencyRatio == p.concurrencyRatio
    requires (a.reExecuteLatency, a.rollbackLatency, a.executionLatency) ==
      (p.reExecuteLatency, p.rollbackLatency, p.executionLatency)
    ensures BestAt(ts, k, a)
  {
    var pre := ts[..|ts| - 1];
    assert forall j :: 0 <= j < |pre| ==> pre[j] == ts[j];
  }

  lemma {:induction false} RatioNonNegative(ts: seq<Trial>, snapshot: (Option<real>, Option<real>, Option<real>))
    ensures Fold(Start(snapshot), ts, true).concurrencyRatio >= 0.0
    decreases |ts|
  {
    if |ts| > 0 {
      RatioNonNegative(ts[..|ts| - 1], snapshot);
    }
  }

  // ------------------------------------------------------ a run that raises

  /** The figures of a run in the order a configuration whose last flag is
      FALSE reads them. */
  function SumFigures(t: Trial): seq<Option<real>> {
    [t.commit, t.execution, t.overhead, t.rollback, t.rollbackRatio,
     t.txLatency, t.blockLatency, t.tps, t.executeLatency, t.rollbackLatency,
     t.reExecuteLatency, t.concurrencyRatio]
  }

  /** The sums those figures are added to, in the same order. */
  function Sums(a: Acc): seq<real> {
    [a.sumCommit, a.sumExecution, a.sumOverhead, a.sumRollback, a.sumRollbackRatio,
     a.sumTxLatency, a.sumBlockLatency, a.sumTps, a.sumExecutionLatency, a.sumRollbackLatency,
     a.sumReExecuteLatency, a.sumConcurrencyRatio]
  }

  /** The figures a configuration whose last flag is TRUE reads before it
      compares the concurrency ratio, in order. */
  function ExtremumFigures(t: Trial): seq<Option<real>> {
    [t.commit, t.execution, t.overhead, t.rollback, t.rollbackRatio,
     t.txLatency, t.blockLatency, t.tps, t.concurrencyRatio]
  }

  /** Every figure of `fs` up to position `j` was printed. */
  predicate PrintedUpTo(fs: seq<Option<real>>, j: int) {
    forall i :: 0 <= i <= j && i < |fs| ==> fs[i].Some?
  }

  /** With the last flag FALSE, a run adds each figure to its sum exactly when
      it and every figure read before it were printed, and it is counted
      exactly when all were; the extrema and the snapshot are untouched. */
  lemma SumsUpToFailure(a: Acc, t: Trial)
    ensures var fs := SumFigures(t);
      var b := Step(a, t, false);
      (forall j :: 0 <= j < 12 ==>
        Sums(b)[j] == Sums(a)[j] + (if PrintedUpTo(fs, j) then fs[j].value else 0.0)) &&
      b.succeedRepeat == a.succeedRepeat + (if PrintedUpTo(fs, 11) then 1 else 0) &&
      (b.txLatency, b.blockLatency, b.tps, b.concurrencyRatio) ==
        (a.txLatency, a.blockLatency, a.tps, a.concurrencyRatio) &&
      (b.reExecuteLatency, b.rollbackLatency, b.executionLatency) ==
        (a.reExecuteLatency, a.rollbackLatency, a.executionLatency)
  {
    var fs := SumFigures(t);
    var k := if t.commit.None? then 0 else if t.execution.None? then 1
      else if t.overhead.None? then 2 else if t.rollback.None? then 3
      else if t.rollbackRatio.None? then 4 else if t.txLatency.None? then 5
      else if t.blockLatency.None? then 6 else if t.tps.None? then 7
      else if t.executeLatency.None? then 8 else if t.rollbackLatency.None? then 9
      else if t.reExecuteLatency.None? then 10 else if t.concurrencyRatio.None? then 11 else 12;
    assert k < 12 ==> fs[k].None?;
    assert forall j :: 0 <= j < k ==> fs[j].Some?;
    assert forall j :: 0 <= j < 12 ==> (PrintedUpTo(fs, j) <==> j < k);
  }

  /** The position of the first figure a configuration whose last flag is
      TRUE finds missing before the ratio comparison; 9 when none is. */
  function ExtremumStop(t: Trial): (k: nat)
    ensures k <= 9 && (k < 9 ==> ExtremumFigures(t)[k].None?)
    ensures forall j :: 0 <= j < k ==> ExtremumFigures(t)[j].Some?
  {
    if t.commit.None? then 0 else if t.execution.None? then 1
    else if t.overhead.None? then 2 else if t.rollback.None? then 3
    else if t.rollbackRatio.None? then 4 else if t.txLatency.None? then 5
    else if t.blockLatency.None? then 6 else if t.tps.None? then 7
    else if t.concurrencyRatio.None? then 8 else 9
  }

  /** With the last flag TRUE, a run adds each of the five shared figures to
      its sum exactly when it and every figure read before it were printed,
      and leaves the other sums alone. */
  lemma ExtremumSumsUpToFailure(a: Acc, t: Trial)
    ensures var fs := ExtremumFigures(t);
      var b := Step(a, t, true);
      (forall j :: 0 <= j < 5 ==>
        Sums(b)[j] == Sums(a)[j] + (if PrintedUpTo(fs, j) then fs[j].value else 0.0)) &&
      (forall j :: 5 <= j < 12 ==> Sums(b)[j] == Sums(a)[j])
  {
    var fs := ExtremumFigures(t);
    var k := ExtremumStop(t);
    assert forall j :: 0 <= j < 9 ==> (PrintedUpTo(fs, j) <==> j < k);
  }

  /** With the last flag TRUE, a run is counted exactly when every figure read
      before the ratio comparison was printed and, when its ratio is a new
      best, so was every breakdown latency; otherwise the count stays. */
  lemma ExtremumCountUpToFailure(a: Acc, t: Trial)
    ensures var b := Step(a, t, true);
      (b.succeedRepeat == a.succeedRepeat + 1 <==>
        PrintedUpTo(ExtremumFigures(t), 8) &&
        (t.concurrencyRatio.Some? && t.concurrencyRatio.value > a.concurrencyRatio ==>
          t.reExecuteLatency.Some? && t.rollbackLatency.Some? && t.executeLatency.Some?)) &&
      (b.succeedRepeat == a.succeedRepeat || b.succeedRepeat == a.succeedRepeat + 1)
  {
    var fs := ExtremumFigures(t);
    var k := ExtremumStop(t);
    assert PrintedUpTo(fs, 8) <==> k == 9;
  }

  // ------------------------------------------------------------------- row

  /** `cc.split(':')[-1] == 'TRUE'`: the descriptor's last field is TRUE. */
  predicate LastFlagTrue(cc: string) {
    ArgParse.Pieces(cc)[|ArgParse.Pieces(cc)| - 1] == "TRUE"
  }

  /** A sum over `n` successful runs divided by `n`. */
  function Mean(sum: real, n: nat): (m: real)
    requires n > 0
    ensures m * (n as real) == sum
  {
    sum / (n as real)
  }

  /** The table row of one configuration. */
  datatype Row = Row(
    protocol: Option<string>, commit: real, overhead: real, rollback: real, rollbackRatio: real,
    txLatency: Ext, blockLatency: Ext, executionLatency: real, rollbackLatency: real,
    reExecuteLatency: real, concurrencyRatio: real, tps: Ext)

  /** The row of a configuration: commit, overhead, rollback and rollback_ratio
      are means over the successful runs; the other figures are the extrema and
      the snapshot when the last flag is TRUE, and means otherwise.  No
      successful run divides by zero; a snapshot never taken is a NameError.
      (sum_execution is accumulated but never reported.) */
  function MakeRow(cc: string, a: Acc): (r: Result<Row>)
    ensures r.Ok? <==>
              |ArgParse.Pieces(cc)| >= 2 && a.succeedRepeat > 0 &&
              (LastFlagTrue(cc) ==> a.executionLatency.Some? && a.rollbackLatency.Some? && a.reExecuteLatency.Some?)
    ensures r.Ok? ==> a.succeedRepeat > 0 && r.value.protocol == GetName(cc).value
    ensures r.Ok? ==> r.value.commit * (a.succeedRepeat as real) == a.sumCommit
    ensures r.Ok? ==> MeanColumns(r.value, a)
    ensures r.Ok? && LastFlagTrue(cc) ==>
      r.value.txLatency == a.txLatency && r.value.blockLatency == a.blockLatency && r.value.tps == a.tps &&
      r.value.concurrencyRatio == a.concurrencyRatio &&
      a.executionLatency == Some(r.value.executionLatency) &&
      a.rollbackLatency == Some(r.value.rollbackLatency) &&
      a.reExecuteLatency == Some(r.value.reExecuteLatency)
    ensures r.Ok? && !LastFlagTrue(cc) ==> var n := a.succeedRepeat as real;
      r.value.txLatency.Fin? && r.value.txLatency.x * n == a.sumTxLatency &&
      r.value.blockLatency.Fin? && r.value.blockLatency.x * n == a.sumBlockLatency &&
      r.value.tps.Fin? && r.value.tps.x * n == a.sumTps &&
      r.value.executionLatency * n == a.sumExecutionLatency &&
      r.value.rollbackLatency * n == a.sumRollbackLatency &&
      r.value.reExecuteLatency * n == a.sumReExecuteLatency &&
      r.value.concurrencyRatio * n == a.sumConcurrencyRatio
  {
    match GetName(cc)
    case Err(msg) => Err(msg)
    case Ok(name) =>
      if a.succeedRepeat == 0 then Err("division by zero")
      else if !LastFlagTrue(cc) then Ok(MeanRow(name, a))
      else if a.executionLatency.None? || a.rollbackLatency.None? || a.reExecuteLatency.None? then
        Err("name is not defined")
      else Ok(ExtremumRow(name, a))
  }

  /** The commit, overhead, rollback and rollback_ratio means every row reports. */
  predicate MeanColumns(row: Row, a: Acc)
    requires a.succeedRepeat > 0
  {
    var n := a.succeedRepeat as real;
    row.commit * n == a.sumCommit && row.overhead * n == a.sumOverhead &&
    row.rollback * n == a.sumRollback && row.rollbackRatio * n == a.sumRollbackRatio
  }

  /** The row when the last flag is FALSE: every figure is a mean. */
  function MeanRow(name: Option<string>, a: Acc): (row: Row)
    requires a.succeedRepeat > 0
    ensures row.protocol == name && MeanColumns(row, a)
    ensures var n := a.succeedRepeat as real;
      row.txLatency.Fin? && row.txLatency.x * n == a.sumTxLatency &&
      row.blockLatency.Fin? && row.blockLatency.x * n == a.sumBlockLatency &&
      row.tps.Fin? && row.tps.x * n == a.sumTps &&
      row.executionLatency * n == a.sumExecutionLatency &&
      row.rollbackLatency * n == a.sumRollbackLatency &&
      row.reExecuteLatency * n == a.sumReExecuteLatency &&
      row.concurrencyRatio * n == a.sumConcurrencyRatio
  {
    var n := a.succeedRepeat;
    Row(name, Mean(a.sumCommit, n), Mean(a.sumOverhead, n), Mean(a.sumRollback, n),
        Mean(a.sumRollbackRatio, n), Fin(Mean(a.sumTxLatency, n)), Fin(Mean(a.sumBlockLatency, n)),
        Mean(a.sumExecutionLatency, n), Mean(a.sumRollbackLatency, n),
        Mean(a.sumReExecuteLatency, n), Mean(a.sumConcurrencyRatio, n), Fin(Mean(a.sumTps, n)))
  }

  /** The row when the last flag is TRUE: extrema and the last snapshot. */
  function ExtremumRow(name: Option<string>, a: Acc): (row: Row)
    requires a.succeedRepeat > 0
    requires a.executionLatency.Some? && a.rollbackLatency.Some? && a.reExecuteLatency.Some?
    ensures row.protocol == name && MeanColumns(row, a)
    ensures row.txLatency == a.txLatency && row.blockLatency == a.blockLatency && row.tps == a.tps &&
      row.concurrencyRatio == a.concurrencyRatio &&
      a.executionLatency == Some(row.executionLatency) &&
      a.rollbackLatency == Some(row.rollbackLatency) &&
      a.reExecuteLatency == Some(row.reExecuteLatency)
  {
    var n := a.succeedRepeat;
    Row(name, Mean(a.sumCommit, n), Mean(a.sumOverhead, n), Mean(a.sumRollback, n),
        Mean(a.sumRollbackRatio, n), a.txLatency, a.blockLatency, a.executionLatency.value,
        a.rollbackLatency.value, a.reExecuteLatency.value, a.concurrencyRatio, a.tps)
  }

  /** A configuration none of whose runs prints even its commit figure
      cannot produce a row, whatever its last flag. */
  lemma NoSuccessNoRow(cc: string, ts: seq<Trial>, extremum: bool,
                       snapshot: (Option<real>, Option<real>, Option<real>))
    requires forall k :: 0 <= k < |ts| ==> ts[k].commit.None?
    ensures MakeRow(cc, Fold(Start(snapshot), ts, extremum)).Err?
  {
    NoCommitNoChange(Start(snapshot), ts, extremum);
    NoRunNoRow(cc, Start(snapshot));
  }

  lemma NoRunNoRow(cc: string, a: Acc)
    requires a.succeedRepeat == 0
    ensures MakeRow(cc, a).Err?
  {
  }

  lemma {:induction false} NoCommitNoChange(init: Acc, ts: seq<Trial>, extremum: bool)
    requires forall k :: 0 <= k < |ts| ==> ts[k].commit.None?
    ensures Fold(init, ts, extremum) == init
    decreases |ts|
  {
    if |ts| > 0 {
      NoCommitNoChange(init, ts[..|ts| - 1], extremum);
    }
  }

  /** With the last flag FALSE and every run complete, the reported commit
      figure is the mean over the runs. */
  lemma MeanCommit(fields: seq<string>, fr: bool, ts: seq<Trial>,
                   snapshot: (Option<real>, Option<real>, Option<real>))
    requires forall k :: 0 <= k < |fields| ==> ArgParse.NoColon(fields[k])
    requires |ts| > 0 && forall k :: 0 <= k < |ts| ==> Full(ts[k])
    ensures var cc := ArgParse.Join(fields + [Flag(fr), Flag(false)]);
      var r := MakeRow(cc, Fold(Start(snapshot), ts, false));
      r.Ok? && r.value.commit == SumCommit(ts) / (|ts| as real)
  {
    var cc := ArgParse.Join(fields + [Flag(fr), Flag(false)]);
    FlagsSplit(fields, fr, false);
    FullRunsCount(Start(snapshot), ts, false);
    CommitSumKeepsFailedRuns(Start(snapshot), ts, false);
  }
}
