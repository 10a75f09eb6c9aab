/**
  Shared vocabulary of the key-value store model: byte strings, Go's nil,
  Go's error values and the outcome of code that may hit a runtime panic.
 */
module Base {

  /** A Go `[]byte` or `string`; each char stands for one byte. */
  type Bytes = seq<char>

  /** A value that may be Go's nil. */
  datatype Option<+T> = None | Some(value: T)

  /** Why a strconv conversion failed (strconv.ErrSyntax or strconv.ErrRange). */
  datatype NumCause = ErrSyntax | ErrRange

  /** The Go `error` values the core produces. */
  datatype Error =
    | Msg(text: Bytes)
      /** a *strconv.NumError: the failing function, its input and the cause */
    | NumError(func: Bytes, input: Bytes, cause: NumCause)

  /** A value or a Go error. */
  datatype Result<+T> = Ok(value: T) | Fail(err: Error)

  /**
    The outcome of code that may panic in Go: either it returns normally or
    the runtime panics (nil dereference, slice bounds, negative make length).
   */
  datatype Outcome<+T> = Normal(value: T) | Panic

  /** A sequence back to front. */
  function Reverse<T>(s: seq<T>): (r: seq<T>)
    ensures |r| == |s|
    ensures forall i :: 0 <= i < |s| ==> r[i] == s[|s| - 1 - i]
  {
    if |s| == 0 then [] else Reverse(s[1..]) + [s[0]]
  }

  /** Every byte string wrapped as a non-nil entry. */
  function Somes(s: seq<Bytes>): (r: seq<Option<Bytes>>)
    ensures |r| == |s|
    ensures forall i :: 0 <= i < |s| ==> r[i] == Some(s[i])
  {
    seq(|s|, i requires 0 <= i < |s| => Some(s[i]))
  }

  function Min(a: int, b: int): int { if a <= b then a else b }

  function Max(a: int, b: int): int { if a >= b then a else b }
}
