/**
  Go's integer widths and the strconv conversions the core calls:
  ParseUint / ParseInt / Atoi in base 10, Itoa, and the decimal subset of
  ParseFloat. Dafny integers are unbounded, so every width is explicit.
 */
module Numbers {
  import opened Base

  const INT64_MIN: int := -0x8000_0000_0000_0000
  const INT64_MAX: int := 0x7fff_ffff_ffff_ffff
  const UINT32_MAX: int := 0xffff_ffff
  const UINT64_MAX: int := 0xffff_ffff_ffff_ffff
  const TWO_TO_64: int := 0x1_0000_0000_0000_0000

  predicate IsInt64(n: int) { INT64_MIN <= n <= INT64_MAX }

  /** Two's-complement wrap-around of Go's int64 arithmetic. */
  function Wrap64(n: int): (r: int)
    ensures IsInt64(r)
    ensures (r - n) % TWO_TO_64 == 0
    ensures IsInt64(n) ==> r == n
  {
    (n - INT64_MIN) % TWO_TO_64 + INT64_MIN
  }

  /** Clamp to the int64 range, as time.Time.Sub does for a Duration. */
  function Saturate64(n: int): (r: int)
    ensures IsInt64(r)
    ensures IsInt64(n) ==> r == n
    ensures n < INT64_MIN ==> r == INT64_MIN
    ensures n > INT64_MAX ==> r == INT64_MAX
  {
    if n < INT64_MIN then INT64_MIN else if n > INT64_MAX then INT64_MAX else n
  }

  /** Go's integer division, which truncates toward zero (Dafny's `/` is Euclidean). */
  function QuoTrunc(a: int, b: int): (q: int)
    requires b > 0
    ensures a >= 0 ==> 0 <= a - q * b < b
    ensures a < 0 ==> -b < a - q * b <= 0
  {
    if a >= 0 then a / b else -((-a) / b)
  }

  predicate IsDigit(c: char) { '0' <= c <= '9' }

  predicate AllDigits(s: string) { forall i :: 0 <= i < |s| ==> IsDigit(s[i]) }

  function Digit(c: char): nat
    requires IsDigit(c)
  {
    (c as int) - ('0' as int)
  }

  function DigitChar(d: nat): (c: char)
    requires d < 10
    ensures IsDigit(c) && Digit(c) == d
  {
    ('0' as int + d) as char
  }

  /** The value of a digit string read left to right, starting from `acc`. */
  function DigitsValue(s: string, acc: nat): nat
    requires AllDigits(s)
  {
    if |s| == 0 then acc else DigitsValue(s[1..], acc * 10 + Digit(s[0]))
  }

  datatype Scan = Value(n: nat) | BadDigit | TooBig

  /**
    The digit loop of strconv.ParseUint in base 10: a non-digit is a syntax
    error and a value above `max` a range error, whichever comes first.
   */
  function ScanDigits(s: string, acc: nat, max: nat): (r: Scan)
    ensures acc <= max && r.Value? ==> acc <= r.n <= max
  {
    if |s| == 0 then Value(acc)
    else if !IsDigit(s[0]) then BadDigit
    else if acc * 10 + Digit(s[0]) > max then TooBig
    else ScanDigits(s[1..], acc * 10 + Digit(s[0]), max)
  }

  datatype Parsed = Num(n: int) | NotNum(cause: NumCause)

  /** strconv.ParseUint(s, 10, bitSize) where `max` is 2^bitSize - 1. */
  function ParseUint(s: string, max: nat): (r: Parsed)
    ensures r.Num? ==> 0 <= r.n <= max
    ensures r.Num? ==> |s| > 0 && AllDigits(s) && r.n == DigitsValue(s, 0)
  {
    if |s| == 0 then NotNum(ErrSyntax)
    else
      match ScanDigits(s, 0, max)
      case Value(n) => ScanValue(s, 0, max); Num(n)
      case BadDigit => NotNum(ErrSyntax)
      case TooBig => NotNum(ErrRange)
  }

  /**
    strconv.ParseInt(s, 10, 64); strconv.Atoi gives the same results on a
    64-bit platform (its fast path only accepts values that fit).
   */
  function ParseInt(s: string): (r: Parsed)
    ensures r.Num? ==> IsInt64(r.n)
    ensures |s| == 0 ==> r == NotNum(ErrSyntax)
  {
    if |s| == 0 then NotNum(ErrSyntax)
    else
      var neg := s[0] == '-';
      var body := if s[0] == '+' || s[0] == '-' then s[1..] else s;
      match ParseUint(body, UINT64_MAX)
      case NotNum(c) => NotNum(c)
      case Num(u) =>
        if !neg && u > INT64_MAX then NotNum(ErrRange)
        else if neg && u > -INT64_MIN then NotNum(ErrRange)
        else if neg then Num(-u) else Num(u)
  }

  /** strconv.Itoa of a non-negative number: its shortest decimal digits. */
  function FormatNat(n: nat): (s: string)
    ensures |s| > 0 && AllDigits(s)
    ensures n > 0 ==> s[0] != '0'
  {
    if n < 10 then [DigitChar(n)] else FormatNat(n / 10) + [DigitChar(n % 10)]
  }

  /** strconv.Itoa / fmt.Sprint of an integer. */
  function FormatInt(n: int): (s: string)
    ensures |s| > 0
  {
    if n < 0 then "-" + FormatNat(-n) else FormatNat(n)
  }

  // ---------------------------------------------------------------------
  // The decimal subset of strconv.ParseFloat used for scores.
  // ---------------------------------------------------------------------

  /** The value of the digits after the point: 0.d1d2... */
  function FracValue(s: string): (v: real)
    requires AllDigits(s)
    ensures 0.0 <= v <= 1.0
  {
    if |s| == 0 then 0.0 else (Digit(s[0]) as real + FracValue(s[1..])) / 10.0
  }

  function IndexOfDot(s: string): (i: nat)
    ensures i <= |s|
    ensures i < |s| ==> s[i] == '.'
    ensures forall j :: 0 <= j < i ==> s[j] != '.'
  {
    if |s| == 0 then 0 else if s[0] == '.' then 0 else 1 + IndexOfDot(s[1..])
  }

  /**
    ParseFloat restricted to `[+-] digits [. digits]` with at least one
    digit; the value is the exact decimal (float64 rounding is not modelled).
   */
  function ParseDecimal(s: string): (r: Option<real>)
    ensures r.Some? ==> |s| > 0
    decreases |s|
  {
    if |s| == 0 then None
    else if s[0] == '+' || s[0] == '-' then
      if |s| > 1 && (s[1] == '+' || s[1] == '-') then None
      else
        match ParseDecimal(s[1..])
        case None => None
        case Some(v) => Some(if s[0] == '-' then -v else v)
    else
      var d := IndexOfDot(s);
      var whole := s[..d];
      var frac := if d < |s| then s[d + 1..] else [];
      if |whole| + |frac| == 0 || !AllDigits(whole) || !AllDigits(frac) then None
      else Some(DigitsValue(whole, 0) as real + FracValue(frac))
  }

  // ---------------------------------------------------------------------
  // Round trips between the parsers and the formatters.
  // ---------------------------------------------------------------------

  lemma {:induction false} DigitsValueGrows(s: string, acc: nat)
    requires AllDigits(s)
    ensures DigitsValue(s, acc) >= acc
    decreases |s|
  {
    if |s| > 0 {
      DigitsValueGrows(s[1..], acc * 10 + Digit(s[0]));
    }
  }

  /** Without overflow, the ParseUint digit loop computes the digits' value. */
  lemma {:induction false} ScanValue(s: string, acc: nat, max: nat)
    ensures ScanDigits(s, acc, max).Value? ==> AllDigits(s) && ScanDigits(s, acc, max).n == DigitsValue(s, acc)
    ensures AllDigits(s) && DigitsValue(s, acc) <= max ==> ScanDigits(s, acc, max) == Value(DigitsValue(s, acc))
    decreases |s|
  {
    if |s| > 0 && IsDigit(s[0]) {
      ScanValue(s[1..], acc * 10 + Digit(s[0]), max);
      if AllDigits(s) {
        DigitsValueGrows(s[1..], acc * 10 + Digit(s[0]));
      }
      if ScanDigits(s, acc, max).Value? {
        assert AllDigits(s[1..]);
        assert AllDigits(s) by {
          forall i | 0 <= i < |s| ensures IsDigit(s[i]) {
            if i > 0 { assert s[i] == s[1..][i - 1]; }
          }
        }
      }
    }
  }

  lemma {:induction false} DigitsValueAppend(s: string, c: char, acc: nat)
    requires AllDigits(s) && IsDigit(c)
    ensures AllDigits(s + [c])
    ensures DigitsValue(s + [c], acc) == DigitsValue(s, acc) * 10 + Digit(c)
    decreases |s|
  {
    if |s| > 0 {
      assert (s + [c])[1..] == s[1..] + [c];
      DigitsValueAppend(s[1..], c, acc * 10 + Digit(s[0]));
    }
  }

  lemma {:induction false} FormatNatValue(n: nat)
    ensures DigitsValue(FormatNat(n), 0) == n
    decreases n
  {
    if n >= 10 {
      FormatNatValue(n / 10);
      DigitsValueAppend(FormatNat(n / 10), DigitChar(n % 10), 0);
    }
  }

  /** Parsing the decimal form of a number in range gives the number back. */
  lemma ParseUintFormatNat(n: nat, max: nat)
    requires n <= max
    ensures ParseUint(FormatNat(n), max) == Num(n)
  {
    FormatNatValue(n);
    ScanValue(FormatNat(n), 0, max);
  }

  /** ParseInt (and Atoi) invert Itoa on the whole int64 range. */
  lemma ParseIntFormatInt(n: int)
    requires IsInt64(n)
    ensures ParseInt(FormatInt(n)) == Num(n)
  {
    if n < 0 {
      ParseUintFormatNat(-n, UINT64_MAX);
      assert ("-" + FormatNat(-n))[1..] == FormatNat(-n);
    } else {
      ParseUintFormatNat(n, UINT64_MAX);
    }
  }

  /** An integer's decimal form parses as that number by the float parser. */
  lemma ParseDecimalFormatInt(n: int)
    ensures ParseDecimal(FormatInt(n)) == Some(n as real)
  {
    var body := FormatNat(if n < 0 then -n else n);
    assert forall j :: 0 <= j < |body| ==> body[j] != '.';
    NoDotIndex(body);
    assert body[..|body|] == body;
    FormatNatValue(if n < 0 then -n else n);
    assert ParseDecimal(body) == Some((if n < 0 then -n else n) as real);
    if n < 0 {
      assert FormatInt(n)[1..] == body;
    }
  }

  lemma NoDotIndex(s: string)
    requires forall j :: 0 <= j < |s| ==> s[j] != '.'
    ensures IndexOfDot(s) == |s|
  {
  }
}
