/**
  Score borders of range queries (datastruct/sortedset/border.go): an
  inclusive or exclusive bound, or one of the two infinities.
 */
module Border {
  import opened Base
  import opened Numbers

  const NegativeInf: int := -1
  const PositiveInf: int := 1

  /**
    The source's struct: `inf` is -1, 0 or 1, and `value` and `exclude`
    only matter when `inf` is 0. The shared infinite borders keep the zero
    value 0 in `value`.
   */
  datatype ScoreBorder = ScoreBorder(inf: int, value: real, exclude: bool)

  const PositiveInfBorder: ScoreBorder := ScoreBorder(PositiveInf, 0.0, false)
  const NegativeInfBorder: ScoreBorder := ScoreBorder(NegativeInf, 0.0, false)

  /** greater: the border lies above `v`, i.e. `v` is under a max border. */
  predicate Greater(b: ScoreBorder, v: real)
  {
    if b.inf == NegativeInf then false
    else if b.inf == PositiveInf then true
    else if b.exclude then b.value > v
    else b.value >= v
  }

  /** less: the border lies below `v`, i.e. `v` is over a min border. */
  predicate Less(b: ScoreBorder, v: real)
  {
    if b.inf == NegativeInf then true
    else if b.inf == PositiveInf then false
    else if b.exclude then b.value < v
    else b.value <= v
  }

  /** A score lies between two borders. */
  predicate InRange(min: ScoreBorder, max: ScoreBorder, v: real)
  {
    Less(min, v) && Greater(max, v)
  }

  /** The real-valued meaning of a border test, case by case. */
  lemma BorderMeaning(b: ScoreBorder, v: real)
    ensures b == NegativeInfBorder ==> !Greater(b, v) && Less(b, v)
    ensures b == PositiveInfBorder ==> Greater(b, v) && !Less(b, v)
    ensures b.inf == 0 && b.exclude ==> (Greater(b, v) <==> v < b.value) && (Less(b, v) <==> b.value < v)
    ensures b.inf == 0 && !b.exclude ==> (Greater(b, v) <==> v <= b.value) && (Less(b, v) <==> b.value <= v)
  {
  }

  /** A finite border admits, from both sides at once, only its own value, and only when inclusive. */
  lemma BothSides(b: ScoreBorder, v: real)
    requires b.inf == 0
    ensures Less(b, v) && Greater(b, v) <==> !b.exclude && v == b.value
  {
  }

  /** Tests against a min border are upward closed, against a max border downward closed. */
  lemma BorderMonotone(b: ScoreBorder, v: real, w: real)
    requires v <= w
    ensures Less(b, v) ==> Less(b, w)
    ensures Greater(b, w) ==> Greater(b, v)
  {
  }

  const NotFloatErr: Bytes := "ERR min or max is not a float"

  /**
    ParseScoreBorder: "inf", "+inf" and "-inf" are the infinities, "(x" an
    exclusive border at x and "x" an inclusive one; the empty string is
    indexed at 0, which panics in the source.
   */
  function ParseScoreBorder(s: Bytes): (r: Result<ScoreBorder>)
    requires |s| > 0
    ensures s == "inf" || s == "+inf" ==> r == Ok(PositiveInfBorder)
    ensures s == "-inf" ==> r == Ok(NegativeInfBorder)
    ensures r.Fail? ==> r.err == Msg(NotFloatErr)
    ensures r.Ok? && r.value.inf == 0 ==> (r.value.exclude <==> s[0] == '(')
    ensures r.Ok? && r.value.inf == 0 && s[0] == '(' ==> ParseDecimal(s[1..]) == Some(r.value.value)
    ensures r.Ok? && r.value.inf == 0 && s[0] != '(' ==> ParseDecimal(s) == Some(r.value.value)
    ensures r.Ok? && r.value.inf != 0 ==> s in {"inf", "+inf", "-inf"}
  {
    if s == "inf" || s == "+inf" then Ok(PositiveInfBorder)
    else if s == "-inf" then Ok(NegativeInfBorder)
    else if s[0] == '(' then
      match ParseDecimal(s[1..])
      case None => Fail(Msg(NotFloatErr))
      case Some(v) => Ok(ScoreBorder(0, v, true))
    else
      match ParseDecimal(s)
      case None => Fail(Msg(NotFloatErr))
      case Some(v) => Ok(ScoreBorder(0, v, false))
  }

  /** Borders written as integers parse back to the integer, exclusive when prefixed by '('. */
  lemma ParseScoreBorderInt(n: int, exclude: bool)
    ensures ParseScoreBorder(if exclude then "(" + FormatInt(n) else FormatInt(n)) == Ok(ScoreBorder(0, n as real, exclude))
  {
    var t := FormatInt(n);
    ParseDecimalFormatInt(n);
    if exclude {
      assert ("(" + t)[1..] == t;
    } else {
      assert t[0] == '-' || IsDigit(t[0]);
    }
    assert t != "inf" && t != "+inf" && t != "-inf" by {
      if n < 0 { assert IsDigit(t[1]); } else { assert IsDigit(t[0]); }
    }
  }
}
