/** The command-line descriptor parser (utils/UArgparse.hpp): a descriptor such
    as `Loom:48:9973:TRUE:TRUE` or `TPCC:1:1600:2:TRUE` is split on ':' and its
    tokens are converted to unsigned integers, booleans or durations. */
module ArgParse {
  import opened Wrappers

  /** The ':'-separated pieces of `s`, empty pieces included: always one more
      piece than there are colons.  This is Python's `str.split(':')`. */
  function Pieces(s: string): (r: seq<string>)
    ensures |r| >= 1
    decreases |s|
  {
    if |s| == 0 then [""]
    else if s[0] == ':' then [""] + Pieces(s[1..])
    else
      var rest := Pieces(s[1..]);
      [[s[0]] + rest[0]] + rest[1..]
  }

  /** split: a C++20 `views::split(':')` over the descriptor.  It yields no token
      at all for the empty string and the same pieces as `Pieces` otherwise
      (leading, doubled and trailing colons give empty tokens). */
  function Split(s: string): (toks: seq<string>)
    ensures |s| == 0 <==> |toks| == 0
  {
    if |s| == 0 then [] else Pieces(s)
  }

  /** Tokens glued back together with ':' between them. */
  function Join(toks: seq<string>): string
  {
    if |toks| == 0 then ""
    else if |toks| == 1 then toks[0]
    else toks[0] + ":" + Join(toks[1..])
  }

  predicate NoColon(t: string) {
    forall i :: 0 <= i < |t| ==> t[i] != ':'
  }

  lemma {:induction false} PiecesJoin(s: string)
    ensures Join(Pieces(s)) == s
    ensures forall k :: 0 <= k < |Pieces(s)| ==> NoColon(Pieces(s)[k])
    decreases |s|
  {
    if |s| > 0 {
      PiecesJoin(s[1..]);
      var rest := Pieces(s[1..]);
      if s[0] == ':' {
        assert s == [':'] + s[1..];
      } else {
        assert s == [s[0]] + s[1..];
        if |rest| > 1 {
          assert rest == [rest[0]] + rest[1..];
          assert Join(rest) == rest[0] + ":" + Join(rest[1..]);
        }
      }
    }
  }

  /** Splitting keeps the tokens in order and loses nothing: joining the tokens
      with ':' gives back the descriptor, and no token holds a ':'. */
  lemma SplitJoin(s: string)
    ensures Join(Split(s)) == s
    ensures forall k :: 0 <= k < |Split(s)| ==> NoColon(Split(s)[k])
  {
    PiecesJoin(s);
  }

  lemma {:induction false} JoinPieces(toks: seq<string>)
    requires |toks| >= 1
    requires forall k :: 0 <= k < |toks| ==> NoColon(toks[k])
    ensures Pieces(Join(toks)) == toks
    decreases |toks|, |toks[0]|
  {
    if |toks[0]| == 0 {
      if |toks| > 1 {
        JoinPieces(toks[1..]);
        assert Join(toks) == ":" + Join(toks[1..]);
        assert Join(toks)[1..] == Join(toks[1..]);
      }
    } else {
      var t := toks[0];
      var toks' := [t[1..]] + toks[1..];
      assert NoColon(t[1..]) by {
        forall i | 0 <= i < |t[1..]| ensures t[1..][i] != ':' {
          assert t[1..][i] == t[i + 1];
        }
      }
      JoinPieces(toks');
      if |toks| == 1 {
        assert Join(toks) == [t[0]] + Join(toks');
      } else {
        assert Join(toks) == [t[0]] + Join(toks') by {
          assert toks'[1..] == toks[1..];
        }
      }
      assert Join(toks)[1..] == Join(toks');
      assert t == [t[0]] + t[1..];
      assert toks == [t] + toks[1..];
    }
  }

  /** The converse round trip: tokens without colons are recovered from their
      join, unless the only token is empty (an empty descriptor has no tokens). */
  lemma JoinSplit(toks: seq<string>)
    requires |toks| >= 1 && toks != [""]
    requires forall k :: 0 <= k < |toks| ==> NoColon(toks[k])
    ensures Split(Join(toks)) == toks
  {
    JoinPieces(toks);
  }

  // ---------------------------------------------------------------- numbers

  predicate IsDigit(c: char) { '0' <= c <= '9' }

  function DigitValue(c: char): nat
    requires IsDigit(c)
  {
    (c as int - '0' as int)
  }

  predicate AllDigits(d: string) {
    forall i :: 0 <= i < |d| ==> IsDigit(d[i])
  }

  /** Length of the run of decimal digits `s` starts with. */
  function DigitRun(s: string): (k: nat)
    ensures k <= |s| && AllDigits(s[..k])
    ensures k < |s| ==> !IsDigit(s[k])
    decreases |s|
  {
    if |s| == 0 || !IsDigit(s[0]) then 0
    else
      var k := 1 + DigitRun(s[1..]);
      assert s[..k] == [s[0]] + s[1..][..k - 1];
      k
  }

  /** The number a string of decimal digits denotes. */
  function DigitsValue(d: string): nat
    requires AllDigits(d)
    decreases |d|
  {
    if |d| == 0 then 0
    else DigitsValue(d[..|d| - 1]) * 10 + DigitValue(d[|d| - 1])
  }

  /** The decimal digits of `n`, without leading zeros. */
  function NatToString(n: nat): (d: string)
    ensures |d| >= 1 && AllDigits(d)
    decreases n
  {
    var c := ('0' as int + n % 10) as char;
    if n < 10 then [c] else NatToString(n / 10) + [c]
  }

  lemma {:induction false} DigitsOfNat(n: nat)
    ensures DigitsValue(NatToString(n)) == n
    decreases n
  {
    var d := NatToString(n);
    if n >= 10 {
      DigitsOfNat(n / 10);
      assert d[..|d| - 1] == NatToString(n / 10);
    }
  }

  /** Reading the digits of `n` back off the front of `NatToString(n) + rest`
      stops at the first non-digit of `rest` and gives `n`. */
  lemma ReadBackNat(n: nat, rest: string)
    requires |rest| == 0 || !IsDigit(rest[0])
    ensures DigitRun(NatToString(n) + rest) == |NatToString(n)|
    ensures DigitsValue((NatToString(n) + rest)[..|NatToString(n)|]) == n
  {
    var d := NatToString(n);
    DigitRunOfDigits(d, rest);
    assert (d + rest)[..|d|] == d;
    DigitsOfNat(n);
  }

  lemma {:induction false} DigitRunOfDigits(d: string, rest: string)
    requires AllDigits(d)
    requires |rest| == 0 || !IsDigit(rest[0])
    ensures DigitRun(d + rest) == |d|
    decreases |d|
  {
    if |d| > 0 {
      assert (d + rest)[1..] == d[1..] + rest;
      DigitRunOfDigits(d[1..], rest);
    } else {
      assert d + rest == rest;
    }
  }

  /** INT reads back any size_t it is given in decimal. */
  lemma ToSizeRoundTrip(n: nat)
    requires n <= SizeMax
    ensures ToSize(NatToString(n)) == n
  {
    var d := NatToString(n);
    DigitsOfNat(n);
    ExtractDigits(d, "", SizeMax);
    assert d + "" == d;
  }

  /** to<bool>: only the exact words TRUE and FALSE are booleans; anything else
      throws. */
  function ToBool(s: string): (r: Result<bool>)
    ensures r.Ok? <==> s == "TRUE" || s == "FALSE"
    ensures r.Ok? ==> (r.value <==> s == "TRUE")
  {
    if s == "TRUE" then Ok(true)
    else if s == "FALSE" then Ok(false)
    else Err("cannot recognize (" + s + ") as boolean should be either TRUE or FALSE")
  }

  predicate IsSpace(c: char) {
    c == ' ' || c == '\t' || c == '\n' || c == '\r' || c == '\U{0B}' || c == '\U{0C}'
  }

  /** Drops leading white space, as a stream extraction does. */
  function SkipSpace(s: string): (r: string)
    ensures |r| <= |s| && (|r| == 0 || !IsSpace(r[0]))
    decreases |s|
  {
    if |s| > 0 && IsSpace(s[0]) then SkipSpace(s[1..]) else s
  }

  const SizeMax: nat := 0x1_0000_0000_0000_0000 - 1
  const UnsignedMax: nat := 0x1_0000_0000 - 1

  /** A stream extraction of an unsigned integer: whether it succeeded, the
      value it stores and how many characters it consumed. */
  datatype Extracted = Extracted(ok: bool, value: nat, used: nat)

  /** `t` without the sign it may start with. */
  function Unsigned(t: string): string {
    if |t| > 0 && (t[0] == '+' || t[0] == '-') then t[1..] else t
  }

  /** What `>>` into an unsigned type of maximum `max` reads off the front of
      `s`: leading white space is skipped, then an optional sign and a run of
      decimal digits are read.  No digits store 0 and fail; a magnitude past
      `max` stores `max` and fails; a negative value wraps around to
      `max + 1 - v`, as strtoull does. */
  function Extract(s: string, max: nat): (r: Extracted)
    ensures r.value <= max && r.used <= |s|
    ensures r.ok ==> r.used > |s| - |SkipSpace(s)|
    ensures DigitRun(Unsigned(SkipSpace(s))) == 0 ==> r == Extracted(false, 0, 0)
  {
    var t := SkipSpace(s);
    var u := Unsigned(t);
    var k := DigitRun(u);
    if k == 0 then Extracted(false, 0, 0)
    else
      var v := DigitsValue(u[..k]);
      var used := |s| - |u| + k;
      if v > max then Extracted(false, max, used)
      else if |t| > 0 && t[0] == '-' && v > 0 then Extracted(true, max + 1 - v, used)
      else Extracted(true, v, used)
  }

  /** `>>` on a run of digits reads exactly their value and stops right after
      them. */
  lemma ExtractDigits(d: string, rest: string, max: nat)
    requires |d| > 0 && AllDigits(d) && DigitsValue(d) <= max
    requires |rest| == 0 || !IsDigit(rest[0])
    ensures Extract(d + rest, max) == Extracted(true, DigitsValue(d), |d|)
  {
    var u := d + rest;
    DigitRunOfDigits(d, rest);
    assert u[..|d|] == d;
    assert IsDigit(u[0]);
    assert SkipSpace(u) == u;
    assert Unsigned(u) == u;
  }

  /** `>>` on a minus sign and a run of digits reads their value wrapped
      around, and stops right after them. */
  lemma ExtractMinusDigits(d: string, rest: string, max: nat)
    requires |d| > 0 && AllDigits(d) && DigitsValue(d) <= max
    requires |rest| == 0 || !IsDigit(rest[0])
    ensures Extract("-" + (d + rest), max) ==
      Extracted(true, if DigitsValue(d) > 0 then max + 1 - DigitsValue(d) else 0, 1 + |d|)
  {
    var u := d + rest;
    var s := "-" + u;
    DigitRunOfDigits(d, rest);
    assert u[..|d|] == d;
    assert SkipSpace(s) == s;
    assert s[1..] == u;
    assert Unsigned(s) == u;
  }

  /** INT, that is `to<size_t>`: the value `>>` stores (see `Extract`). */
  function ToSize(s: string): (n: nat)
    ensures n <= SizeMax
    ensures DigitRun(Unsigned(SkipSpace(s))) == 0 ==> n == 0
  {
    Extract(s, SizeMax).value
  }

  /** A minus sign wraps: `-v` reads as SIZE_MAX + 1 - v. */
  lemma ToSizeNegative(v: nat)
    requires 0 < v <= SizeMax
    ensures ToSize("-" + NatToString(v)) == SizeMax + 1 - v
  {
    var d := NatToString(v);
    DigitsOfNat(v);
    ExtractMinusDigits(d, "", SizeMax);
    assert "-" + (d + "") == "-" + d;
  }

  /** A magnitude past SIZE_MAX saturates, whatever its sign. */
  lemma ToSizeSaturates(v: nat, neg: bool)
    requires v > SizeMax
    ensures ToSize((if neg then "-" else "") + NatToString(v)) == SizeMax
  {
    var s := (if neg then "-" else "") + NatToString(v);
    assert SkipSpace(s) == s;
    assert Unsigned(s) == NatToString(v);
    ReadBackNat(v, "");
    assert NatToString(v) + "" == NatToString(v);
  }

  /** Leading white space changes nothing a stream extraction reads. */
  lemma ExtractSkipsSpace(c: char, s: string, max: nat)
    requires IsSpace(c)
    ensures Extract([c] + s, max).ok == Extract(s, max).ok
    ensures Extract([c] + s, max).value == Extract(s, max).value
    ensures Extract(s, max).ok ==> Extract([c] + s, max).used == Extract(s, max).used + 1
  {
    assert ([c] + s)[1..] == s;
  }

  /** The word `>> std::string` reads: the longest run of non-space characters
      after the leading white space. */
  function Word(s: string): (w: string)
    ensures forall i :: 0 <= i < |w| ==> !IsSpace(w[i])
  {
    var t := SkipSpace(s);
    t[..NonSpaceRun(t)]
  }

  function NonSpaceRun(t: string): (k: nat)
    ensures k <= |t| && (forall i :: 0 <= i < k ==> !IsSpace(t[i]))
    ensures k < |t| ==> IsSpace(t[k])
    decreases |t|
  {
    if |t| == 0 || IsSpace(t[0]) then 0 else 1 + NonSpaceRun(t[1..])
  }

  /** The duration suffix table: ms, s, m (minutes) and h, in milliseconds. */
  function UnitScale(unit: string): (r: Option<nat>)
    ensures r.Some? <==> unit in {"ms", "s", "m", "h"}
  {
    if unit == "ms" then Some(1)
    else if unit == "s" then Some(1000)
    else if unit == "m" then Some(60000)
    else if unit == "h" then Some(3600000)
    else None
  }

  /** to<milliseconds>: an `unsigned` count extracted as `Extract` reads it,
      then a unit word.  A failed count, a missing unit or an unknown unit all
      give 0 ms (the source reports them on stderr). */
  function ToMilliseconds(s: string): (ms: nat)
  {
    var x := Extract(s, UnsignedMax);
    if !x.ok then 0
    else
      var unit := Word(s[x.used..]);
      if |unit| == 0 then 0
      else match UnitScale(unit)
        case Some(scale) => x.value * scale
        case None => 0
  }

  /** A well-formed duration such as `3s` or `250ms` is `n` times the unit's
      scale; an unknown unit word gives 0. */
  lemma ToMillisecondsRoundTrip(n: nat, unit: string)
    requires n <= UnsignedMax
    requires |unit| > 0 && !IsDigit(unit[0]) && forall i :: 0 <= i < |unit| ==> !IsSpace(unit[i])
    ensures UnitScale(unit).Some? ==> ToMilliseconds(NatToString(n) + unit) == n * UnitScale(unit).value
    ensures UnitScale(unit).None? ==> ToMilliseconds(NatToString(n) + unit) == 0
  {
    var d := NatToString(n);
    DigitsOfNat(n);
    ExtractDigits(d, unit, UnsignedMax);
    assert (d + unit)[|d|..] == unit;
    assert SkipSpace(unit) == unit;
    WholeWord(unit);
  }

  lemma {:induction false} WholeWord(t: string)
    requires forall i :: 0 <= i < |t| ==> !IsSpace(t[i])
    ensures NonSpaceRun(t) == |t|
    decreases |t|
  {
    if |t| > 0 {
      WholeWord(t[1..]);
    }
  }

  /** A duration with no digit after its leading white space and optional sign
      is 0 ms whatever follows. */
  lemma NoCountIsZero(s: string)
    requires DigitRun(Unsigned(SkipSpace(s))) == 0
    ensures ToMilliseconds(s) == 0
  {
  }

  /** Leading white space does not change a duration. */
  lemma DurationSkipsSpace(c: char, s: string)
    requires IsSpace(c)
    ensures ToMilliseconds([c] + s) == ToMilliseconds(s)
  {
    ExtractSkipsSpace(c, s, UnsignedMax);
    var x := Extract(s, UnsignedMax);
    if x.ok {
      assert ([c] + s)[x.used + 1..] == s[x.used..];
    }
  }

  /** A minus sign wraps the count around `unsigned`: `-n` followed by a
      known unit is (UINT_MAX + 1 - n) times the unit's scale. */
  lemma NegativeCountWraps(n: nat, unit: string)
    requires 0 < n <= UnsignedMax
    requires |unit| > 0 && !IsDigit(unit[0]) && forall i :: 0 <= i < |unit| ==> !IsSpace(unit[i])
    requires UnitScale(unit).Some?
    ensures ToMilliseconds("-" + NatToString(n) + unit) == (UnsignedMax + 1 - n) * UnitScale(unit).value
  {
    var d := NatToString(n);
    DigitsOfNat(n);
    ExtractMinusDigits(d, unit, UnsignedMax);
    var s := "-" + d + unit;
    assert s == "-" + (d + unit);
    assert s[1 + |d|..] == unit;
    assert SkipSpace(unit) == unit;
    WholeWord(unit);
  }

  // ------------------------------------------------------------ descriptors

  /** What ParseWorkload reads: warehouses, block size, block count and the
      nesting flag, in that order. */
  datatype WorkloadConfig = WorkloadConfig(warehouses: nat, blockSize: nat, numBlocks: nat, isNest: bool)

  /** ParseWorkload: the first token (the workload name) is ignored and the next
      four are converted in order; further tokens are ignored.  With fewer than
      five tokens the source reads past the end of the token list, modelled as
      an error. */
  function ParseWorkload(arg: string): (r: Result<WorkloadConfig>)
    ensures r.Ok? <==> |Split(arg)| >= 5 && (Split(arg)[4] == "TRUE" || Split(arg)[4] == "FALSE")
    ensures r.Ok? ==> r.value == WorkloadConfig(ToSize(Split(arg)[1]), ToSize(Split(arg)[2]),
                                                ToSize(Split(arg)[3]), Split(arg)[4] == "TRUE")
  {
    var args := Split(arg);
    if |args| < 5 then Err("missing workload argument")
    else match ToBool(args[4])
      case Err(msg) => Err(msg)
      case Ok(isNest) => Ok(WorkloadConfig(ToSize(args[1]), ToSize(args[2]), ToSize(args[3]), isNest))
  }

  /** A workload descriptor written out from its fields parses back to them. */
  lemma ParseWorkloadRoundTrip(name: string, c: WorkloadConfig)
    requires NoColon(name)
    requires c.warehouses <= SizeMax && c.blockSize <= SizeMax && c.numBlocks <= SizeMax
    ensures ParseWorkload(Join([name, NatToString(c.warehouses), NatToString(c.blockSize),
                                NatToString(c.numBlocks), if c.isNest then "TRUE" else "FALSE"])) == Ok(c)
  {
    var toks := [name, NatToString(c.warehouses), NatToString(c.blockSize),
                 NatToString(c.numBlocks), if c.isNest then "TRUE" else "FALSE"];
    forall k | 0 <= k < 5 ensures NoColon(toks[k]) {
      if 1 <= k <= 3 {
        forall i | 0 <= i < |toks[k]| ensures toks[k][i] != ':' {
          assert IsDigit(toks[k][i]);
        }
      }
    }
    JoinSplit(toks);
    ToSizeRoundTrip(c.warehouses);
    ToSizeRoundTrip(c.blockSize);
    ToSizeRoundTrip(c.numBlocks);
  }

  /** The argument kinds of the protocol table. */
  datatype ArgKind = IntArg | BoolArg
  datatype ArgValue = IntVal(n: nat) | BoolVal(b: bool)
  datatype ProtocolConfig = ProtocolConfig(name: string, args: seq<ArgValue>)

  /** The OPT table of ParseProtocol: the protocols it knows and the kinds of
      their arguments. */
  function Signature(name: string): (sig: Option<seq<ArgKind>>)
    ensures sig.Some? <==> name in {"Serial", "Aria", "Harmony", "Moss", "Loom"}
  {
    if name == "Serial" then Some([IntArg, IntArg])
    else if name == "Aria" then Some([IntArg, IntArg, BoolArg])
    else if name == "Harmony" then Some([IntArg, IntArg, BoolArg])
    else if name == "Moss" then Some([IntArg, IntArg])
    else if name == "Loom" then Some([IntArg, IntArg, BoolArg, BoolArg])
    else None
  }

  /** Every token a boolean argument takes is TRUE or FALSE. */
  predicate WellFormedArgs(kinds: seq<ArgKind>, toks: seq<string>) {
    forall k :: 0 <= k < |kinds| && k < |toks| && kinds[k] == BoolArg ==> toks[k] == "TRUE" || toks[k] == "FALSE"
  }

  /** Converts the tokens after the name against the kinds, in order, as
      ASSGIN_ARGS does before the argument count is checked: a bad boolean
      throws, and a missing token is a read past the end of the token list. */
  function ConvertArgs(kinds: seq<ArgKind>, toks: seq<string>): (r: Result<seq<ArgValue>>)
    ensures r.Ok? <==> |toks| >= |kinds| && WellFormedArgs(kinds, toks)
    ensures r.Ok? ==> |r.value| == |kinds|
    ensures r.Ok? ==> forall k :: 0 <= k < |kinds| ==>
      r.value[k] == if kinds[k] == IntArg then IntVal(ToSize(toks[k])) else BoolVal(toks[k] == "TRUE")
    decreases |kinds|
  {
    if |kinds| == 0 then Ok([])
    else if |toks| == 0 then Err("missing protocol argument")
    else
      var v :=
        if kinds[0] == IntArg then Ok(IntVal(ToSize(toks[0])))
        else match ToBool(toks[0])
          case Ok(b) => Ok(BoolVal(b))
          case Err(msg) => Err(msg);
      match v
      case Err(msg) => Err(msg)
      case Ok(x) =>
        match ConvertArgs(kinds[1..], toks[1..])
        case Err(msg) => Err(msg)
        case Ok(xs) => Ok([x] + xs)
  }

  /** ParseProtocol: an unknown name throws; a known one converts its arguments
      and then throws unless exactly that many arguments were given. */
  function ParseProtocol(arg: string): (r: Result<ProtocolConfig>)
    ensures |Split(arg)| == 0 ==> r.Err?
    ensures |Split(arg)| > 0 && Signature(Split(arg)[0]).None? ==> r.Err?
    ensures r.Ok? ==> Signature(Split(arg)[0]).Some? &&
                      |Split(arg)| - 1 == |Signature(Split(arg)[0]).value| == |r.value.args| &&
                      r.value.name == Split(arg)[0]
    ensures r.Ok? <==> |Split(arg)| > 0 && Signature(Split(arg)[0]).Some? &&
                       |Split(arg)| - 1 == |Signature(Split(arg)[0]).value| &&
                       WellFormedArgs(Signature(Split(arg)[0]).value, Split(arg)[1..])
    ensures r.Ok? ==> var kinds := Signature(Split(arg)[0]).value;
      forall k :: 0 <= k < |kinds| ==>
        r.value.args[k] == if kinds[k] == IntArg then IntVal(ToSize(Split(arg)[k + 1]))
                           else BoolVal(Split(arg)[k + 1] == "TRUE")
  {
    var args := Split(arg);
    if |args| == 0 then Err("empty protocol descriptor")
    else
      var name := args[0];
      match Signature(name)
      case None => Err("unknown protocol option (" + name + ")")
      case Some(kinds) =>
        match ConvertArgs(kinds, args[1..])
        case Err(msg) => Err(msg)
        case Ok(vals) =>
          if |args| - 1 != |kinds| then Err("protocol " + name + " has the wrong number of args")
          else Ok(ProtocolConfig(name, vals))
  }
}
