/**
  The argument parsers of the command executor (executer/parsecmd.go) and
  the reply texts it shares with executer/executer.go.

  A command is the sequence of its arguments, the command name first. Each
  parser checks the argument count, converts the numeric arguments and
  returns either the typed arguments or the error the executor replies with.
 */
module CommandArgs {
  import opened Base
  import opened Numbers
  import opened Border

  const ParamNotFoundErr: Bytes := "parameter can not found"
  const MissParamErr: Bytes := "miss parameter"
  const ParamNotImplementedErr: Bytes := "current commonds can not implemented"
  const NoErr: Bytes := "+OK"
  const ParamUncorrect: Bytes := "args uncorrect"

  const MissParam: Error := Msg(MissParamErr)
  const Uncorrect: Error := Msg(ParamUncorrect)

  // ---------------------------------------------------------------------
  // strconv and strings helpers
  // ---------------------------------------------------------------------

  /** strconv.Atoi: an int64, or a *NumError naming Atoi, the input and the cause. */
  function Atoi(s: Bytes): (r: Result<int>)
    ensures r.Ok? <==> ParseInt(s).Num?
    ensures r.Ok? ==> r.value == ParseInt(s).n && IsInt64(r.value)
    ensures r.Fail? ==> r.err == NumError("Atoi", s, ParseInt(s).cause)
  {
    match ParseInt(s)
    case Num(n) => Ok(n)
    case NotNum(c) => Fail(NumError("Atoi", s, c))
  }

  /** An int64 written in decimal converts back to itself. */
  lemma AtoiFormatInt(n: int)
    requires IsInt64(n)
    ensures Atoi(FormatInt(n)) == Ok(n)
  {
    ParseIntFormatInt(n);
  }

  /** strconv.ParseFloat on the decimal forms scores are written in. */
  function ParseFloat(s: Bytes): (r: Result<real>)
    ensures r.Ok? <==> ParseDecimal(s).Some?
    ensures r.Ok? ==> r.value == ParseDecimal(s).value
    ensures r.Fail? ==> r.err == NumError("ParseFloat", s, ErrSyntax)
  {
    match ParseDecimal(s)
    case Some(v) => Ok(v)
    case None => Fail(NumError("ParseFloat", s, ErrSyntax))
  }

  /** ASCII case folding of one byte. */
  function Lower(c: char): char
  {
    if 'A' <= c <= 'Z' then (c as int + 32) as char else c
  }

  function Upper(c: char): char
  {
    if 'a' <= c <= 'z' then (c as int - 32) as char else c
  }

  /** strings.EqualFold restricted to ASCII: equal after folding case. */
  predicate EqualFold(a: Bytes, b: Bytes)
  {
    |a| == |b| && forall i :: 0 <= i < |a| ==> Lower(a[i]) == Lower(b[i])
  }

  /** A word matches its upper-case spelling, and any word matches itself. */
  lemma UpperFolds(s: Bytes)
    ensures EqualFold(seq(|s|, i requires 0 <= i < |s| => Upper(s[i])), s)
    ensures EqualFold(s, s)
  {
  }

  /** The option keywords match in upper case. */
  lemma KeywordsFold()
    ensures EqualFold("WITHSCORES", "withscores")
    ensures EqualFold("LIMIT", "limit")
  {
    assert forall i :: 0 <= i < 10 ==> Lower("WITHSCORES"[i]) == "withscores"[i];
    assert forall i :: 0 <= i < 5 ==> Lower("LIMIT"[i]) == "limit"[i];
  }

  /** Folding is symmetric. */
  lemma EqualFoldSymmetric(a: Bytes, b: Bytes)
    requires EqualFold(a, b)
    ensures EqualFold(b, a)
  {
  }

  // ---------------------------------------------------------------------
  // List commands
  // ---------------------------------------------------------------------

  /** prePush: the values after the key; at least one is needed. */
  function PrePush(args: seq<Bytes>): (r: Result<seq<Bytes>>)
    ensures r.Fail? <==> |args| < 3
    ensures r.Fail? ==> r.err == MissParam
    ensures r.Ok? ==> |r.value| == |args| - 2 && args == args[..2] + r.value
  {
    if |args| < 3 then Fail(MissParam)
    else
      assert args == args[..2] + args[2..];
      Ok(args[2..])
  }

  /** A push command built from a key and values parses back to those values. */
  lemma PushArgs(cmd: Bytes, key: Bytes, values: seq<Bytes>)
    requires |values| > 0
    ensures PrePush([cmd, key] + values) == Ok(values)
  {
    assert ([cmd, key] + values)[2..] == values;
  }

  datatype RangeArgs = RangeArgs(key: Bytes, start: int, stop: int)

  /** preLrange: a key and two int64 indices. */
  function PreLrange(args: seq<Bytes>): (r: Result<RangeArgs>)
    ensures |args| < 4 ==> r == Fail(MissParam)
    ensures |args| >= 4 ==>
              if Atoi(args[2]).Fail? then r == Fail(Atoi(args[2]).err)
              else if Atoi(args[3]).Fail? then r == Fail(Atoi(args[3]).err)
              else r == Ok(RangeArgs(args[1], Atoi(args[2]).value, Atoi(args[3]).value))
  {
    if |args| < 4 then Fail(MissParam)
    else
      match Atoi(args[2])
      case Fail(e) => Fail(e)
      case Ok(start) =>
        match Atoi(args[3])
        case Fail(e) => Fail(e)
        case Ok(stop) => Ok(RangeArgs(args[1], start, stop))
  }

  /** Indices written in decimal parse back; extra arguments are ignored. */
  lemma LrangeArgs(cmd: Bytes, key: Bytes, start: int, stop: int, extra: seq<Bytes>)
    requires IsInt64(start) && IsInt64(stop)
    ensures PreLrange([cmd, key, FormatInt(start), FormatInt(stop)] + extra) == Ok(RangeArgs(key, start, stop))
  {
    AtoiFormatInt(start);
    AtoiFormatInt(stop);
  }

  datatype SetArgs = SetArgs(key: Bytes, index: int, value: Bytes)

  /** preLset: a key, an int64 index and the new value. */
  function PreLset(args: seq<Bytes>): (r: Result<SetArgs>)
    ensures |args| < 4 ==> r == Fail(MissParam)
    ensures |args| >= 4 && Atoi(args[2]).Fail? ==> r == Fail(Atoi(args[2]).err)
    ensures |args| >= 4 && Atoi(args[2]).Ok? ==> r == Ok(SetArgs(args[1], Atoi(args[2]).value, args[3]))
  {
    if |args| < 4 then Fail(MissParam)
    else
      match Atoi(args[2])
      case Fail(e) => Fail(e)
      case Ok(index) => Ok(SetArgs(args[1], index, args[3]))
  }

  lemma LsetArgs(cmd: Bytes, key: Bytes, index: int, value: Bytes)
    requires IsInt64(index)
    ensures PreLset([cmd, key, FormatInt(index), value]) == Ok(SetArgs(key, index, value))
  {
    AtoiFormatInt(index);
  }

  datatype IndexArgs = IndexArgs(key: Bytes, index: int)

  /** preLindex: a key and an int64 index. */
  function PreLindex(args: seq<Bytes>): (r: Result<IndexArgs>)
    ensures |args| < 3 ==> r == Fail(MissParam)
    ensures |args| >= 3 && Atoi(args[2]).Fail? ==> r == Fail(Atoi(args[2]).err)
    ensures |args| >= 3 && Atoi(args[2]).Ok? ==> r == Ok(IndexArgs(args[1], Atoi(args[2]).value))
  {
    if |args| < 3 then Fail(MissParam)
    else
      match Atoi(args[2])
      case Fail(e) => Fail(e)
      case Ok(index) => Ok(IndexArgs(args[1], index))
  }

  lemma LindexArgs(cmd: Bytes, key: Bytes, index: int)
    requires IsInt64(index)
    ensures PreLindex([cmd, key, FormatInt(index)]) == Ok(IndexArgs(key, index))
  {
    AtoiFormatInt(index);
  }

  datatype PopArgs = PopArgs(key: Bytes, count: int)

  /** prePop: a key and an optional int64 count, 1 when absent. */
  function PrePop(args: seq<Bytes>): (r: Result<PopArgs>)
    ensures |args| < 2 ==> r == Fail(MissParam)
    ensures |args| == 2 ==> r == Ok(PopArgs(args[1], 1))
    ensures |args| > 2 && Atoi(args[2]).Fail? ==> r == Fail(Atoi(args[2]).err)
    ensures |args| > 2 && Atoi(args[2]).Ok? ==> r == Ok(PopArgs(args[1], Atoi(args[2]).value))
  {
    if |args| < 2 then Fail(MissParam)
    else if |args| == 2 then Ok(PopArgs(args[1], 1))
    else
      match Atoi(args[2])
      case Fail(e) => Fail(e)
      case Ok(count) => Ok(PopArgs(args[1], count))
  }

  /** Leaving the count out is the same as giving 1. */
  lemma PopDefault(cmd: Bytes, key: Bytes)
    ensures PrePop([cmd, key]) == PrePop([cmd, key, "1"])
  {
    AtoiFormatInt(1);
    assert FormatInt(1) == "1";
  }

  datatype InsertArgs = InsertArgs(key: Bytes, before: bool, pivot: Bytes, value: Bytes)

  /** preLinsert: a key, BEFORE or AFTER in any case, the pivot and the value. */
  function PreLinsert(args: seq<Bytes>): (r: Result<InsertArgs>)
    ensures |args| < 5 ==> r == Fail(MissParam)
    ensures |args| >= 5 ==>
              (r.Ok? <==> EqualFold(args[2], "before") || EqualFold(args[2], "after"))
    ensures |args| >= 5 && r.Fail? ==> r.err == Uncorrect
    ensures r.Ok? ==> r.value == InsertArgs(args[1], EqualFold(args[2], "before"), args[3], args[4])
  {
    if |args| < 5 then Fail(MissParam)
    else if EqualFold(args[2], "before") then Ok(InsertArgs(args[1], true, args[3], args[4]))
    else if !EqualFold(args[2], "after") then Fail(Uncorrect)
    else Ok(InsertArgs(args[1], false, args[3], args[4]))
  }

  /** "before" and "after" never match each other, so the position is never ambiguous. */
  lemma InsertPositionDistinct(s: Bytes)
    ensures !(EqualFold(s, "before") && EqualFold(s, "after"))
  {
  }

  datatype RemArgs = RemArgs(key: Bytes, count: int, value: Bytes)

  /** preLrem: a key, an int64 count and the value to remove. */
  function PreLrem(args: seq<Bytes>): (r: Result<RemArgs>)
    ensures |args| < 4 ==> r == Fail(MissParam)
    ensures |args| >= 4 && Atoi(args[2]).Fail? ==> r == Fail(Atoi(args[2]).err)
    ensures |args| >= 4 && Atoi(args[2]).Ok? ==> r == Ok(RemArgs(args[1], Atoi(args[2]).value, args[3]))
  {
    if |args| < 4 then Fail(MissParam)
    else
      match Atoi(args[2])
      case Fail(e) => Fail(e)
      case Ok(count) => Ok(RemArgs(args[1], count, args[3]))
  }

  lemma LremArgs(cmd: Bytes, key: Bytes, count: int, value: Bytes)
    requires IsInt64(count)
    ensures PreLrem([cmd, key, FormatInt(count), value]) == Ok(RemArgs(key, count, value))
  {
    AtoiFormatInt(count);
  }

  // ---------------------------------------------------------------------
  // Sorted-set commands
  // ---------------------------------------------------------------------

  datatype ZaddArgs = ZaddArgs(names: seq<Bytes>, scores: seq<real>)

  /**
    The two halves of the j-th pair in a flat list of pairs: `score name ...`
    for zadd, `key value ...` for mset and msetnx.
   */
  function FirstOf(pairs: seq<Bytes>, j: int): Bytes
    requires 0 <= j < |pairs| / 2
  {
    pairs[2 * j]
  }

  function SecondOf(pairs: seq<Bytes>, j: int): Bytes
    requires 0 <= j < |pairs| / 2
  {
    pairs[2 * j + 1]
  }

  /**
    preZadd's loop over `score name` pairs: every complete pair, in order,
    stopping at the first score that is not a float. A trailing unpaired
    argument is ignored.
   */
  function Pairs(pairs: seq<Bytes>): (r: Result<ZaddArgs>)
    ensures r.Ok? ==> |r.value.names| == |r.value.scores| == |pairs| / 2
    decreases |pairs|
  {
    if |pairs| < 2 then Ok(ZaddArgs([], []))
    else
      match ParseFloat(pairs[0])
      case Fail(e) => Fail(e)
      case Ok(v) =>
        match Pairs(pairs[2..])
        case Fail(e) => Fail(e)
        case Ok(z) => Ok(ZaddArgs([pairs[1]] + z.names, [v] + z.scores))
  }

  /** Every score is a float. */
  predicate ScoresParse(pairs: seq<Bytes>)
  {
    forall j :: 0 <= j < |pairs| / 2 ==> ParseFloat(FirstOf(pairs, j)).Ok?
  }

  lemma PairsShift(pairs: seq<Bytes>, j: int)
    requires |pairs| >= 2 && 0 <= j < |pairs[2..]| / 2
    ensures FirstOf(pairs[2..], j) == FirstOf(pairs, j + 1)
    ensures SecondOf(pairs[2..], j) == SecondOf(pairs, j + 1)
  {
  }

  /** The pairs are read in full exactly when every score is a float. */
  lemma {:induction false} PairsOk(pairs: seq<Bytes>)
    ensures Pairs(pairs).Ok? <==> ScoresParse(pairs)
    decreases |pairs|
  {
    if |pairs| >= 2 {
      PairsOk(pairs[2..]);
      ScoresParseStep(pairs);
    }
  }

  /** Every score is a float exactly when the first one is and every later one is. */
  lemma ScoresParseStep(pairs: seq<Bytes>)
    requires |pairs| >= 2
    ensures ScoresParse(pairs) <==> ParseFloat(pairs[0]).Ok? && ScoresParse(pairs[2..])
  {
    var rest := pairs[2..];
    assert FirstOf(pairs, 0) == pairs[0];
    if ScoresParse(pairs) {
      forall j | 0 <= j < |rest| / 2 ensures ParseFloat(FirstOf(rest, j)).Ok? {
        PairsShift(pairs, j);
      }
    } else if ParseFloat(pairs[0]).Ok? {
      var j :| 0 <= j < |pairs| / 2 && ParseFloat(FirstOf(pairs, j)).Fail?;
      PairsShift(pairs, j - 1);
    }
  }

  /** When the pairs are read in full, the j-th name and score are those of the j-th pair. */
  lemma PairsValues(pairs: seq<Bytes>)
    requires Pairs(pairs).Ok?
    ensures forall j :: 0 <= j < |pairs| / 2 ==>
              Pairs(pairs).value.names[j] == SecondOf(pairs, j) &&
              ParseFloat(FirstOf(pairs, j)) == Ok(Pairs(pairs).value.scores[j])
  {
    forall j | 0 <= j < |pairs| / 2
      ensures Pairs(pairs).value.names[j] == SecondOf(pairs, j)
      ensures ParseFloat(FirstOf(pairs, j)) == Ok(Pairs(pairs).value.scores[j])
    {
      PairValue(pairs, j);
    }
  }

  /** The j-th name and score read are those of the j-th pair. */
  lemma {:induction false} PairValue(pairs: seq<Bytes>, j: int)
    requires Pairs(pairs).Ok? && 0 <= j < |pairs| / 2
    ensures Pairs(pairs).value.names[j] == SecondOf(pairs, j)
    ensures ParseFloat(FirstOf(pairs, j)) == Ok(Pairs(pairs).value.scores[j])
    decreases j
  {
    PairsHead(pairs);
    if j > 0 {
      PairValue(pairs[2..], j - 1);
      PairsShift(pairs, j - 1);
    }
  }

  /** Reading pairs in full reads the first pair, then the rest. */
  lemma PairsHead(pairs: seq<Bytes>)
    requires Pairs(pairs).Ok? && |pairs| >= 2
    ensures ParseFloat(pairs[0]).Ok? && Pairs(pairs[2..]).Ok?
    ensures Pairs(pairs).value.names == [pairs[1]] + Pairs(pairs[2..]).value.names
    ensures Pairs(pairs).value.scores == [ParseFloat(pairs[0]).value] + Pairs(pairs[2..]).value.scores
  {
  }

  /** Pair j exists and every score before it is a float. */
  predicate ScoresParseBefore(pairs: seq<Bytes>, j: int)
  {
    0 <= j < |pairs| / 2 && forall k :: 0 <= k < j ==> ParseFloat(FirstOf(pairs, k)).Ok?
  }

  /** When a score is not a float, the error is that of the first such score. */
  lemma PairsError(pairs: seq<Bytes>)
    requires Pairs(pairs).Fail?
    ensures exists j :: ScoresParseBefore(pairs, j) && ParseFloat(FirstOf(pairs, j)) == Fail(Pairs(pairs).err)
  {
    var j := FirstBadScore(pairs);
  }

  /** The index of the first score that is not a float, which Pairs reports. */
  lemma {:induction false} FirstBadScore(pairs: seq<Bytes>) returns (j: int)
    requires Pairs(pairs).Fail?
    ensures ScoresParseBefore(pairs, j) && ParseFloat(FirstOf(pairs, j)) == Fail(Pairs(pairs).err)
    decreases |pairs|
  {
    assert FirstOf(pairs, 0) == pairs[0];
    match ParseFloat(pairs[0])
    case Fail(e) =>
      j := 0;
    case Ok(v) =>
      var rest := pairs[2..];
      assert Pairs(rest).Fail? && Pairs(pairs).err == Pairs(rest).err;
      var i := FirstBadScore(rest);
      PairsShift(pairs, i);
      j := i + 1;
      forall k | 1 <= k < j ensures ParseFloat(FirstOf(pairs, k)).Ok? {
        PairsShift(pairs, k - 1);
      }
  }

  /**
    preZadd: at least one pair after the key. It succeeds exactly when every
    score is a float, and then yields the pairs' names and scores in order.
   */
  function PreZadd(args: seq<Bytes>): (r: Result<ZaddArgs>)
    ensures |args| < 4 ==> r == Fail(MissParam)
    ensures |args| >= 4 ==> (r.Ok? <==> ScoresParse(args[2..]))
    ensures r.Ok? ==> |r.value.names| == |r.value.scores| == (|args| - 2) / 2 >= 1
    ensures r.Ok? ==> forall j :: 0 <= j < (|args| - 2) / 2 ==>
              r.value.names[j] == SecondOf(args[2..], j) && ParseFloat(FirstOf(args[2..], j)) == Ok(r.value.scores[j])
    ensures |args| >= 4 && r.Fail? ==> exists j ::
              ScoresParseBefore(args[2..], j) && ParseFloat(FirstOf(args[2..], j)) == Fail(r.err)
  {
    if |args| < 4 then Fail(MissParam)
    else
      var r := Pairs(args[2..]);
      PairsOk(args[2..]);
      if r.Ok? then PairsValues(args[2..]); r
      else PairsError(args[2..]); r
  }

  /** `score name` pairs written with integer scores. */
  function Interleave(scores: seq<int>, names: seq<Bytes>): (r: seq<Bytes>)
    requires |scores| == |names|
    ensures |r| == 2 * |names|
    ensures forall j :: 0 <= j < |names| ==> FirstOf(r, j) == FormatInt(scores[j]) && SecondOf(r, j) == names[j]
  {
    if |names| == 0 then []
    else
      var rest := Interleave(scores[1..], names[1..]);
      var r := [FormatInt(scores[0]), names[0]] + rest;
      assert r[2..] == rest;
      assert forall j :: 1 <= j < |names| ==> FirstOf(r, j) == FirstOf(rest, j - 1) && SecondOf(r, j) == SecondOf(rest, j - 1) by {
        forall j | 1 <= j < |names| ensures FirstOf(r, j) == FirstOf(rest, j - 1) && SecondOf(r, j) == SecondOf(rest, j - 1) {
          PairsShift(r, j - 1);
        }
      }
      r
  }

  /** A zadd command written from names and integer scores parses back to them. */
  lemma ZaddArgsRoundTrip(cmd: Bytes, key: Bytes, scores: seq<int>, names: seq<Bytes>)
    requires |scores| == |names| > 0
    ensures PreZadd([cmd, key] + Interleave(scores, names)) ==
            Ok(ZaddArgs(names, seq(|scores|, i requires 0 <= i < |scores| => scores[i] as real)))
  {
    var args := [cmd, key] + Interleave(scores, names);
    var pairs := Interleave(scores, names);
    assert args[2..] == pairs;
    forall j | 0 <= j < |pairs| / 2 ensures ParseFloat(FirstOf(pairs, j)) == Ok(scores[j] as real) {
      ParseDecimalFormatInt(scores[j]);
    }
    PairsOk(pairs);
    PairsValues(pairs);
    var r := Pairs(pairs).value;
    assert r.names == names;
    assert r.scores == seq(|scores|, i requires 0 <= i < |scores| => scores[i] as real);
  }

  datatype WindowArgs = WindowArgs(start: int, stop: int, withScore: bool)

  /** preZrevrange: two int64 ranks and WITHSCORES, recognised only as the fifth and last argument. */
  function PreZrevrange(args: seq<Bytes>): (r: Result<WindowArgs>)
    ensures |args| < 4 ==> r == Fail(MissParam)
    ensures |args| >= 4 ==>
              if Atoi(args[2]).Fail? then r == Fail(Atoi(args[2]).err)
              else if Atoi(args[3]).Fail? then r == Fail(Atoi(args[3]).err)
              else r == Ok(WindowArgs(Atoi(args[2]).value, Atoi(args[3]).value,
                                      |args| == 5 && EqualFold(args[4], "withscores")))
  {
    if |args| < 4 then Fail(MissParam)
    else
      match Atoi(args[2])
      case Fail(e) => Fail(e)
      case Ok(start) =>
        match Atoi(args[3])
        case Fail(e) => Fail(e)
        case Ok(stop) => Ok(WindowArgs(start, stop, |args| == 5 && EqualFold(args[4], "withscores")))
  }

  lemma ZrangeArgs(cmd: Bytes, key: Bytes, start: int, stop: int, withScores: bool)
    requires IsInt64(start) && IsInt64(stop)
    ensures var args := [cmd, key, FormatInt(start), FormatInt(stop)] + (if withScores then ["WITHSCORES"] else []);
            PreZrevrange(args) == Ok(WindowArgs(start, stop, withScores))
  {
    AtoiFormatInt(start);
    AtoiFormatInt(stop);
    KeywordsFold();
  }

  /** The borders, options and window of a score-range query. */
  datatype ScoreQuery = ScoreQuery(key: Bytes, min: ScoreBorder, max: ScoreBorder, withScore: bool, offset: int, count: int)

  /** LIMIT offset count: two int64s. */
  function Limit(q: ScoreQuery, offset: Bytes, count: Bytes): (r: Result<ScoreQuery>)
    ensures Atoi(offset).Fail? ==> r == Fail(Atoi(offset).err)
    ensures Atoi(offset).Ok? && Atoi(count).Fail? ==> r == Fail(Atoi(count).err)
    ensures Atoi(offset).Ok? && Atoi(count).Ok? ==> r == Ok(q.(offset := Atoi(offset).value, count := Atoi(count).value))
  {
    match Atoi(offset)
    case Fail(e) => Fail(e)
    case Ok(o) =>
      match Atoi(count)
      case Fail(e) => Fail(e)
      case Ok(c) => Ok(q.(offset := o, count := c))
  }

  /**
    The options after the borders, by argument count: none (4); WITHSCORES
    (5); LIMIT offset count (7); WITHSCORES LIMIT offset count (8). Any
    other count, or another word in place of a keyword, is rejected.
   */
  function ScoreOptions(args: seq<Bytes>, q: ScoreQuery): (r: Result<ScoreQuery>)
    requires |args| >= 4
    ensures r.Ok? ==> r.value.key == q.key && r.value.min == q.min && r.value.max == q.max
    ensures r.Ok? ==> (r.value.withScore <==> q.withScore || |args| == 5 || |args| == 8)
    ensures |args| == 4 ==> r == Ok(q)
    ensures |args| !in {4, 5, 7, 8} ==> r == Fail(Uncorrect)
    ensures r.Ok? && |args| in {4, 5} ==> r.value.offset == q.offset && r.value.count == q.count
    ensures |args| == 7 && EqualFold(args[4], "limit") ==> r == Limit(q, args[5], args[6])
    ensures |args| == 8 && EqualFold(args[4], "withscores") && EqualFold(args[5], "limit") ==>
              r == Limit(q.(withScore := true), args[6], args[7])
  {
    if |args| == 4 then Ok(q)
    else if |args| == 5 then
      if EqualFold(args[4], "withscores") then Ok(q.(withScore := true)) else Fail(Uncorrect)
    else if |args| == 7 then
      if EqualFold(args[4], "limit") then Limit(q, args[5], args[6]) else Fail(Uncorrect)
    else if |args| == 8 then
      if !EqualFold(args[4], "withscores") then Fail(Uncorrect)
      else if EqualFold(args[5], "limit") then Limit(q.(withScore := true), args[6], args[7])
      else Fail(Uncorrect)
    else Fail(Uncorrect)
  }

  /**
    preZrankByScore with `noLimit` as the count when no LIMIT is given: a
    key and two score borders, then the options. A border that is the empty
    string is indexed at 0, which panics.
   */
  function PreZrankByScoreWith(args: seq<Bytes>, noLimit: int): (r: Outcome<Result<ScoreQuery>>)
    ensures |args| < 4 ==> r == Normal(Fail(MissParam))
    ensures r.Panic? <==>
              |args| >= 4 && (|args[2]| == 0 || (ParseScoreBorder(args[2]).Ok? && |args[3]| == 0))
    ensures |args| >= 4 && |args[2]| > 0 && ParseScoreBorder(args[2]).Fail? ==> r == Normal(Fail(Msg(NotFloatErr)))
    ensures |args| >= 4 && |args[2]| > 0 && |args[3]| > 0 && ParseScoreBorder(args[2]).Ok? ==>
              if ParseScoreBorder(args[3]).Fail? then r == Normal(Fail(Msg(NotFloatErr)))
              else r == Normal(ScoreOptions(args, ScoreQuery(args[1], ParseScoreBorder(args[2]).value,
                                                             ParseScoreBorder(args[3]).value, false, 0, noLimit)))
  {
    if |args| < 4 then Normal(Fail(MissParam))
    else if |args[2]| == 0 then Panic
    else
      match ParseScoreBorder(args[2])
      case Fail(e) => Normal(Fail(e))
      case Ok(min) =>
        if |args[3]| == 0 then Panic
        else
          match ParseScoreBorder(args[3])
          case Fail(e) => Normal(Fail(e))
          case Ok(max) => Normal(ScoreOptions(args, ScoreQuery(args[1], min, max, false, 0, noLimit)))
  }

  /** preZrankByScore as written: without LIMIT the count stays at its zero value. */
  function PreZrankByScoreAsWritten(args: seq<Bytes>): (r: Outcome<Result<ScoreQuery>>)
    ensures |args| in {4, 5} && r.Normal? && r.value.Ok? ==> r.value.value.count == 0
  {
    PreZrankByScoreWith(args, 0)
  }

  /**
    preZrankByScore with the count defaulting to -1, which the score walk
    reads as "no limit", when no LIMIT is given.
   */
  function PreZrankByScore(args: seq<Bytes>): (r: Outcome<Result<ScoreQuery>>)
    ensures |args| in {4, 5} && r.Normal? && r.value.Ok? ==> r.value.value.count == -1 && r.value.value.offset == 0
    ensures |args| !in {4, 5} ==> r == PreZrankByScoreAsWritten(args)
  {
    PreZrankByScoreWith(args, -1)
  }

  /** A query with integer borders and LIMIT parses back to its parts. */
  lemma ScoreQueryArgs(cmd: Bytes, key: Bytes, lo: int, hi: int, offset: int, count: int)
    requires IsInt64(offset) && IsInt64(count)
    ensures var args := [cmd, key, FormatInt(lo), FormatInt(hi), "LIMIT", FormatInt(offset), FormatInt(count)];
            PreZrankByScoreAsWritten(args) ==
              Normal(Ok(ScoreQuery(key, ScoreBorder(0, lo as real, false), ScoreBorder(0, hi as real, false), false, offset, count)))
  {
    ParseScoreBorderInt(lo, false);
    ParseScoreBorderInt(hi, false);
    AtoiFormatInt(offset);
    AtoiFormatInt(count);
    KeywordsFold();
  }

  /** GetKey: the key a command addresses, and whether it is the `ping` heartbeat. */
  function GetKey(args: seq<Bytes>): (r: (Bytes, bool))
    ensures r.1 <==> args == ["ping"]
    ensures !r.1 && |args| >= 2 ==> r.0 == args[1]
    ensures |args| < 2 ==> r.0 == []
  {
    if |args| == 1 && args[0] == "ping" then ([], true)
    else if |args| >= 2 then (args[1], false)
    else ([], false)
  }
}
