/**
  The RESP decoder (parser/parser.go): the Parse0 loop that turns a byte
  stream into payloads, with its read state, line reader and the header,
  body and single-line parsers.

  The stream is the whole remaining input; a read that needs more bytes
  than remain is the reader's end-of-file error. The loop's channel becomes
  the returned sequence of payloads, and the way the loop ends is recorded:
  closed after an I/O error, or crashed by a runtime panic that Parse0's
  deferred recover turns into a silent close.
 */
module Resp {
  import opened Base
  import opened Numbers
  import opened Replies

  /** What the loop sends: a reply, a protocol error (with its text), or the reader's error. */
  datatype Payload =
    | Data(reply: Reply)
    | ProtocolError(text: Bytes)
      /** io.EOF, or io.ErrUnexpectedEOF when a fixed-size read got some bytes but not all */
    | IOError(unexpected: bool)

  datatype End = Closed | Crashed

  datatype Stream = Stream(payloads: seq<Payload>, end: End)

  /** readState: what the loop has seen of the message being read. */
  datatype ReadState = ReadState(
    readingMultiLine: bool,
    expectedArgsCount: int,
    msgType: char,
    args: seq<Bytes>,
    bulkLen: int)

  /** The zero readState the loop starts from and resets to. */
  const Fresh: ReadState := ReadState(false, 0, 0 as char, [], 0)

  /** finished: every expected argument has arrived. */
  predicate Finished(st: ReadState)
  {
    st.expectedArgsCount > 0 && |st.args| == st.expectedArgsCount
  }

  /**
    The states the loop is in at the top of an iteration: fresh, or part of
    the way through a `*` or `$` message, with a non-negative pending bulk
    length.
   */
  predicate Consistent(st: ReadState)
  {
    || st == Fresh
    || (&& st.readingMultiLine
        && (st.msgType == '*' || (st.msgType == '$' && st.expectedArgsCount == 1))
        && |st.args| < st.expectedArgsCount
        && 0 <= st.bulkLen <= INT64_MAX)
  }

  function ProtocolErrorText(msg: Bytes): Bytes
  {
    "protocol error: " + msg
  }

  /** The index of the first newline, or the length when there is none. */
  function NewlineAt(s: Bytes): (i: nat)
    ensures i <= |s|
    ensures i < |s| ==> s[i] == '\n'
    ensures forall j :: 0 <= j < i ==> s[j] != '\n'
  {
    if |s| == 0 then 0 else if s[0] == '\n' then 0 else 1 + NewlineAt(s[1..])
  }

  /**
    The longest byte slice `make` will allocate: the Go runtime's maxAlloc
    on 64-bit Linux, 2^48. A longer length panics with "len out of range".
   */
  const MaxAlloc: int := 0x1_0000_0000_0000

  datatype LineRead =
    | Line(msg: Bytes, rest: Bytes, state: ReadState)
    | BadLine(text: Bytes, rest: Bytes)
    | IOFailed(unexpected: bool)
    | Crash

  /**
    readLine: with no pending bulk length, the bytes up to and including
    the next newline, which must follow a carriage return; otherwise exactly
    bulkLen + 2 bytes, unchecked, and the pending length is cleared. A bare
    newline indexes before the start of the line, and a length whose int64
    sum with 2 exceeds what `make` allocates (wrapping negative, or above
    MaxAlloc) is refused by it; both panic.
   */
  function ReadLine(input: Bytes, st: ReadState): (r: LineRead)
    requires 0 <= st.bulkLen <= INT64_MAX
    ensures r.Line? ==> 2 <= |r.msg| && r.msg + r.rest == input && r.state == st.(bulkLen := 0)
    ensures r.Line? && st.bulkLen == 0 ==> r.msg[|r.msg| - 2..] == "\r\n"
    ensures r.Line? && st.bulkLen > 0 ==> |r.msg| == st.bulkLen + 2
    ensures r.BadLine? ==> |r.rest| < |input|
  {
    if st.bulkLen == 0 then
      var i := NewlineAt(input);
      if i == |input| then IOFailed(false)
      else if i == 0 then Crash
      else if input[i - 1] != '\r' then BadLine(ProtocolErrorText(input[..i + 1]), input[i + 1..])
      else
        assert input[..i + 1] + input[i + 1..] == input;
        Line(input[..i + 1], input[i + 1..], st)
    else
      // bulkLen + 2 wraps negative only above INT64_MAX, which is above MaxAlloc too
      var n := st.bulkLen + 2;
      if n > MaxAlloc then Crash
      else if |input| < n then IOFailed(|input| > 0)
      else
        assert input[..n] + input[n..] == input;
        Line(input[..n], input[n..], st.(bulkLen := 0))
  }

  /** How a line read ends: the cases of ReadLine in terms of the input alone. */
  lemma ReadLineCases(input: Bytes, st: ReadState)
    requires 0 <= st.bulkLen <= INT64_MAX
    ensures var r := ReadLine(input, st);
            && (r.IOFailed? <==>
                 if st.bulkLen == 0 then NewlineAt(input) == |input|
                 else st.bulkLen + 2 <= MaxAlloc && |input| < st.bulkLen + 2)
            && (r.Crash? <==>
                 if st.bulkLen == 0 then NewlineAt(input) == 0 < |input|
                 else st.bulkLen + 2 > MaxAlloc)
            && (r.Line? && st.bulkLen == 0 ==> NewlineAt(input) == |r.msg| - 1)
            && (r.BadLine? ==>
                 && st.bulkLen == 0 && 0 < NewlineAt(input) < |input|
                 && input[NewlineAt(input) - 1] != '\r'
                 && r.text == ProtocolErrorText(input[..NewlineAt(input) + 1]))
  {
  }

  datatype Handled = Handled(out: Option<Payload>, state: ReadState)

  /** A protocol error about the line `msg`, after which the state resets. */
  function Reject(msg: Bytes): Handled
  {
    Handled(Some(ProtocolError(ProtocolErrorText(msg))), Fresh)
  }

  /**
    parseMultiBulkHeader: `*0` is the empty multi-bulk reply; `*n` for
    n > 0 starts collecting n arguments; a count that is not an unsigned
    32-bit number is a protocol error.
   */
  function MultiBulkHeader(msg: Bytes): (r: Handled)
    requires |msg| >= 3
    ensures Consistent(r.state)
    ensures ParseUint(msg[1..|msg| - 2], UINT32_MAX) == Num(0) ==> r == Handled(Some(Data(EmptyMultiBulkReply)), Fresh)
    ensures ParseUint(msg[1..|msg| - 2], UINT32_MAX).NotNum? ==> r == Reject(msg)
    ensures r.out.None? <==> ParseUint(msg[1..|msg| - 2], UINT32_MAX).Num? && ParseUint(msg[1..|msg| - 2], UINT32_MAX).n > 0
    ensures r.out.None? ==>
              r.state == ReadState(true, ParseUint(msg[1..|msg| - 2], UINT32_MAX).n, '*', [], 0)
  {
    match ParseUint(msg[1..|msg| - 2], UINT32_MAX)
    case NotNum(_) => Reject(msg)
    case Num(n) =>
      if n == 0 then Handled(Some(Data(EmptyMultiBulkReply)), Fresh)
      else Handled(None, ReadState(true, n, '*', [], 0))
  }

  /**
    parseBulkHeader: `$-1` is the null bulk reply; `$n` for n >= 0 expects
    one argument of n bytes; any other length is a protocol error.
   */
  function BulkHeader(msg: Bytes): (r: Handled)
    requires |msg| >= 3
    ensures Consistent(r.state)
    ensures ParseInt(msg[1..|msg| - 2]) == Num(-1) ==> r == Handled(Some(Data(NullBulkReply)), Fresh)
    ensures r.out.None? <==> ParseInt(msg[1..|msg| - 2]).Num? && ParseInt(msg[1..|msg| - 2]).n >= 0
    ensures r.out.None? ==> r.state == ReadState(true, 1, '$', [], ParseInt(msg[1..|msg| - 2]).n)
    ensures r.out.Some? && r.out.value.ProtocolError? <==>
              ParseInt(msg[1..|msg| - 2]).NotNum? || ParseInt(msg[1..|msg| - 2]).n < -1
  {
    match ParseInt(msg[1..|msg| - 2])
    case NotNum(_) => Reject(msg)
    case Num(n) =>
      if n == -1 then Handled(Some(Data(NullBulkReply)), Fresh)
      else if n >= 0 then Handled(None, ReadState(true, 1, '$', [], n))
      else Reject(msg)
  }

  /** strings.TrimSuffix(s, "\r\n"). */
  function TrimCrlf(s: Bytes): (t: Bytes)
    ensures |s| >= 2 && s[|s| - 2..] == "\r\n" ==> t + "\r\n" == s
    ensures !(|s| >= 2 && s[|s| - 2..] == "\r\n") ==> t == s
  {
    if |s| >= 2 && s[|s| - 2..] == "\r\n" then
      assert s[..|s| - 2] + s[|s| - 2..] == s;
      s[..|s| - 2]
    else s
  }

  /** strings.Split(s, sep): the pieces between separators, one more than there are separators. */
  function Split(s: Bytes, sep: char): (r: seq<Bytes>)
    ensures |r| >= 1
    ensures forall k :: 0 <= k < |r| ==> sep !in r[k]
    decreases |s|
  {
    var i := IndexOf(s, sep);
    if i == |s| then [s]
    else [s[..i]] + Split(s[i + 1..], sep)
  }

  function IndexOf(s: Bytes, c: char): (i: nat)
    ensures i <= |s|
    ensures i < |s| ==> s[i] == c
    ensures c !in s[..i]
  {
    if |s| == 0 then 0 else if s[0] == c then 0 else 1 + IndexOf(s[1..], c)
  }

  /** strings.Join(parts, sep). */
  function Join(parts: seq<Bytes>, sep: char): Bytes
    requires |parts| >= 1
  {
    if |parts| == 1 then parts[0] else parts[0] + [sep] + Join(parts[1..], sep)
  }

  /** Joining the pieces of a split restores the string. */
  lemma {:induction false} SplitJoin(s: Bytes, sep: char)
    ensures Join(Split(s, sep), sep) == s
    decreases |s|
  {
    var i := IndexOf(s, sep);
    if i < |s| {
      var rest := Split(s[i + 1..], sep);
      assert Split(s, sep) == [s[..i]] + rest;
      assert ([s[..i]] + rest)[1..] == rest;
      SplitJoin(s[i + 1..], sep);
      assert Join(Split(s, sep), sep) == s[..i] + [sep] + Join(rest, sep);
      assert s == s[..i] + [sep] + s[i + 1..];
    }
  }

  /**
    parseSingleLineReply: `+s` is a status, `-s` an error, `:n` an integer
    (a protocol error when n is not an int64), and any other line the
    multi-bulk reply of its space-separated words.
   */
  function SingleLine(msg: Bytes): (p: Payload)
    requires |msg| >= 2 && msg[|msg| - 2..] == "\r\n"
    ensures msg[0] == '+' ==> p == Data(StatusReply(msg[1..|msg| - 2]))
    ensures msg[0] == '-' ==> p == Data(ErrReply(Msg(msg[1..|msg| - 2])))
    ensures msg[0] == ':' && ParseInt(msg[1..|msg| - 2]).Num? ==> p == Data(IntReply(ParseInt(msg[1..|msg| - 2]).n))
    ensures msg[0] == ':' && ParseInt(msg[1..|msg| - 2]).NotNum? ==> p == ProtocolError(ProtocolErrorText(msg))
    ensures msg[0] !in "+-:" ==>
              p.Data? && p.reply.MultiBulkReply? &&
              p.reply.args == Somes(Split(msg[..|msg| - 2], ' '))
  {
    var str := TrimCrlf(msg);
    assert str == msg[..|msg| - 2];
    if msg[0] == '+' then Data(StatusReply(str[1..]))
    else if msg[0] == '-' then Data(ErrReply(Msg(str[1..])))
    else if msg[0] == ':' then
      match ParseInt(str[1..])
      case NotNum(_) => ProtocolError(ProtocolErrorText(msg))
      case Num(v) => Data(IntReply(v))
    else Data(MultiBulkReply(Somes(Split(str, ' '))))
  }

  /**
    After an argument arrives: when all are in, the reply is built (a
    multi-bulk reply for `*`, a bulk reply for `$`) and the state resets.
   */
  function Collect(st: ReadState): (r: Handled)
    requires st.readingMultiLine && 0 <= st.bulkLen <= INT64_MAX
    requires st.msgType == '*' || (st.msgType == '$' && st.expectedArgsCount == 1)
    requires 0 < |st.args| <= st.expectedArgsCount
    ensures Consistent(r.state)
    ensures Finished(st) && st.msgType == '*' ==> r == Handled(Some(Data(MultiBulkReply(Somes(st.args)))), Fresh)
    ensures Finished(st) && st.msgType == '$' ==> r == Handled(Some(Data(BulkReply(Some(st.args[0])))), Fresh)
    ensures !Finished(st) ==> r == Handled(None, st)
  {
    if Finished(st) then
      var reply := if st.msgType == '*' then MultiBulkReply(Somes(st.args)) else BulkReply(Some(st.args[0]));
      Handled(Some(Data(reply)), Fresh)
    else Handled(None, st)
  }

  /**
    readBody: a line `$n` sets the pending bulk length (a negative n adds an
    empty argument instead); any other line, without its last two bytes, is
    the next argument.
   */
  function ReadBody(st: ReadState, msg: Bytes): (r: Handled)
    requires Consistent(st) && st.readingMultiLine && |msg| >= 2
    ensures Consistent(r.state)
    ensures var line := msg[..|msg| - 2];
            !(|line| > 0 && line[0] == '$') ==> r == Collect(st.(args := st.args + [line]))
    ensures var line := msg[..|msg| - 2];
            |line| > 0 && line[0] == '$' && ParseInt(line[1..]).NotNum? ==> r == Reject(msg)
    ensures var line := msg[..|msg| - 2];
            |line| > 0 && line[0] == '$' && ParseInt(line[1..]).Num? ==>
              if ParseInt(line[1..]).n < 0 then r == Collect(st.(args := st.args + [[]], bulkLen := 0))
              else r == Handled(None, st.(bulkLen := ParseInt(line[1..]).n))
  {
    var line := msg[..|msg| - 2];
    if |line| > 0 && line[0] == '$' then
      match ParseInt(line[1..])
      case NotNum(_) => Reject(msg)
      case Num(n) =>
        if n < 0 then Collect(st.(args := st.args + [[]], bulkLen := 0))
        else Handled(None, st.(bulkLen := n))
    else Collect(st.(args := st.args + [line]))
  }

  /** One line of input, read in the loop's current state. */
  function Handle(st: ReadState, msg: Bytes): (r: Handled)
    requires Consistent(st) && st.bulkLen == 0 && |msg| >= 2
    requires !st.readingMultiLine ==> msg[|msg| - 2..] == "\r\n"
    ensures Consistent(r.state)
  {
    if !st.readingMultiLine then
      assert |msg| == 2 ==> msg[0] == '\r';
      if msg[0] == '*' then MultiBulkHeader(msg)
      else if msg[0] == '$' then BulkHeader(msg)
      else Handled(Some(SingleLine(msg)), Fresh)
    else ReadBody(st, msg)
  }

  /** Put an optional payload in front of the rest of the stream. */
  function Emit(out: Option<Payload>, s: Stream): (r: Stream)
    ensures r.end == s.end
    ensures r.payloads == (if out.Some? then [out.value] else []) + s.payloads
  {
    Stream((if out.Some? then [out.value] else []) + s.payloads, s.end)
  }

  /** One iteration of the loop: it either stops with the stream's last payloads, or goes on. */
  datatype Turn =
    | Stop(last: Stream)
    | Continue(out: Option<Payload>, rest: Bytes, state: ReadState)

  /**
    One iteration of Parse0: read a line and handle it. An I/O error is
    sent and ends the loop; a panic ends it with nothing sent; a protocol
    error from the reader is sent and the state reset.
   */
  function Advance(input: Bytes, st: ReadState): (t: Turn)
    requires Consistent(st)
    ensures t.Stop? && t.last.end == Closed ==> |t.last.payloads| == 1 && t.last.payloads[0].IOError?
    ensures t.Stop? && t.last.end == Crashed ==> t.last.payloads == []
    ensures t.Continue? ==> |t.rest| < |input| && Consistent(t.state)
    ensures t.Continue? && t.out.Some? ==> !t.out.value.IOError?
  {
    match ReadLine(input, st)
    case IOFailed(u) => Stop(Stream([IOError(u)], Closed))
    case Crash => Stop(Stream([], Crashed))
    case BadLine(text, rest) => Continue(Some(ProtocolError(text)), rest, Fresh)
    case Line(msg, rest, st1) =>
      var h := Handle(st1, msg);
      Continue(h.out, rest, h.state)
  }

  /**
    Parse0: the payloads the loop sends for the whole input, and how it
    ends. Only the last payload can be an I/O error, and it is there
    exactly when the stream was closed rather than crashed.
   */
  function Parse(input: Bytes, st: ReadState): (r: Stream)
    requires Consistent(st)
    ensures WellEnded(r)
    decreases |input|
  {
    match Advance(input, st)
    case Stop(last) => last
    case Continue(out, rest, st1) =>
      var s := Parse(rest, st1);
      EmitWellEnded(out, s);
      Emit(out, s)
  }

  /** Only the last payload can be an I/O error, and it is there exactly when the stream was closed. */
  predicate WellEnded(s: Stream)
  {
    && (s.end == Closed <==> |s.payloads| > 0 && s.payloads[|s.payloads| - 1].IOError?)
    && forall i :: 0 <= i < |s.payloads| - 1 ==> !s.payloads[i].IOError?
  }

  /** A payload other than an I/O error, put in front of a well-ended stream, keeps it well ended. */
  lemma EmitWellEnded(out: Option<Payload>, s: Stream)
    requires WellEnded(s) && (out.Some? ==> !out.value.IOError?)
    ensures WellEnded(Emit(out, s))
  {
    var p := Emit(out, s).payloads;
    if out.Some? {
      assert forall i :: 1 <= i < |p| ==> p[i] == s.payloads[i - 1];
    }
  }

  /** The decoder run on a whole input from the fresh state. */
  function Decode(input: Bytes): Stream
  {
    Parse(input, Fresh)
  }

  /**
    ParseSingleReply: the same loop, stopped at its first payload. A read or
    protocol error, a complete reply, or an empty multi-bulk or null bulk
    header ends it; a panic is recovered and nothing is sent.
   */
  function SingleReply(input: Bytes, st: ReadState): (r: Option<Payload>)
    requires Consistent(st)
    decreases |input|
  {
    match Advance(input, st)
    case Stop(last) => if |last.payloads| > 0 then Some(last.payloads[0]) else None
    case Continue(out, rest, st1) => if out.Some? then out else SingleReply(rest, st1)
  }

  /** The single reply is exactly the first payload the stream decoder sends, and none when it sends nothing. */
  lemma {:induction false} SingleReplyFirst(input: Bytes, st: ReadState)
    requires Consistent(st)
    ensures var s := Parse(input, st);
            SingleReply(input, st) == if |s.payloads| > 0 then Some(s.payloads[0]) else None
    decreases |input|
  {
    match Advance(input, st)
    case Stop(_) =>
    case Continue(out, rest, st1) =>
      if out.None? {
        SingleReplyFirst(rest, st1);
      }
  }

  /** A client reading one encoded command gets back exactly its multi-bulk reply. */
  lemma SingleReplyCommand(args: seq<Bytes>, more: Bytes)
    requires 0 < |args| <= UINT32_MAX
    requires forall k :: 0 <= k < |args| ==> Plain(args[k])
    ensures SingleReply(EncodeCommand(args) + more, Fresh) == Some(Data(MultiBulkReply(Somes(args))))
  {
    CommandRoundTrip(args, more);
    SingleReplyFirst(EncodeCommand(args) + more, Fresh);
  }

  // ---------------------------------------------------------------------
  // Encoding a command and decoding it back
  // ---------------------------------------------------------------------

  /** `$len\r\n<bytes>\r\n` */
  function EncodeBulk(a: Bytes): Bytes
  {
    "$" + FormatNat(|a|) + "\r\n" + a + "\r\n"
  }

  function EncodeBulks(args: seq<Bytes>): Bytes
  {
    if |args| == 0 then [] else EncodeBulk(args[0]) + EncodeBulks(args[1..])
  }

  /** A command as a client sends it: `*n\r\n` and n bulk strings. */
  function EncodeCommand(args: seq<Bytes>): Bytes
  {
    "*" + FormatNat(|args|) + "\r\n" + EncodeBulks(args)
  }

  /** An argument the decoder reads back unchanged: not starting with `$`, and with a length that fits. */
  predicate Plain(a: Bytes)
  {
    (|a| == 0 || a[0] != '$') && |a| + 2 <= MaxAlloc
  }

  lemma {:induction false} NewlineAfter(p: Bytes, q: Bytes)
    requires forall j :: 0 <= j < |p| ==> p[j] != '\n'
    ensures NewlineAt(p + q) == |p| + NewlineAt(q)
    decreases |p|
  {
    if |p| > 0 {
      assert (p + q)[0] == p[0] != '\n';
      assert (p + q)[1..] == p[1..] + q;
      NewlineAfter(p[1..], q);
    } else {
      assert p + q == q;
    }
  }

  /** The first line of `p \n more`, when p holds no newline, is `p \n`. */
  lemma FirstLine(input: Bytes, p: Bytes, more: Bytes)
    requires input == p + "\n" + more
    requires forall j :: 0 <= j < |p| ==> p[j] != '\n'
    ensures NewlineAt(input) == |p|
    ensures input[..|p| + 1] == p + "\n" && input[|p| + 1..] == more
  {
    assert input == p + ("\n" + more);
    NewlineAfter(p, "\n" + more);
  }

  /** A line `p \r\n` read in line mode, when p holds no newline. */
  lemma CrlfLine(p: Bytes, more: Bytes, st: ReadState)
    requires 0 < |p| && forall j :: 0 <= j < |p| ==> p[j] != '\n'
    requires st.bulkLen == 0
    ensures ReadLine(p + "\r\n" + more, st) == Line(p + "\r\n", more, st)
  {
    var input := p + "\r\n" + more;
    var q := p + "\r";
    assert forall j :: 0 <= j < |q| ==> q[j] != '\n' by {
      forall j | 0 <= j < |q| ensures q[j] != '\n' {
        if j < |p| { assert q[j] == p[j]; }
      }
    }
    assert input == q + "\n" + more;
    FirstLine(input, q, more);
    assert q + "\n" == p + "\r\n";
  }

  /** A header line `c digits \r\n` is read as one line. */
  lemma HeaderLine(c: char, digits: Bytes, more: Bytes, st: ReadState)
    requires c != '\n' && AllDigits(digits) && st.bulkLen == 0
    ensures ReadLine([c] + digits + "\r\n" + more, st) == Line([c] + digits + "\r\n", more, st)
  {
    var p := [c] + digits;
    assert forall j :: 0 <= j < |p| ==> p[j] != '\n' by {
      forall j | 0 <= j < |p| ensures p[j] != '\n' {
        if 0 < j { assert p[j] == digits[j - 1]; }
      }
    }
    CrlfLine(p, more, st);
  }

  /** The digits of a non-negative number parse back as that number. */
  lemma ParseNat(n: nat)
    requires n <= INT64_MAX
    ensures ParseInt(FormatNat(n)) == Num(n)
  {
    ParseIntFormatInt(n);
  }

  /** A bulk header `$n` read while collecting a `*` message sets the pending length to n. */
  lemma BulkHeaderStep(n: nat, st: ReadState, rest: Bytes)
    requires st.readingMultiLine && st.msgType == '*' && |st.args| < st.expectedArgsCount && st.bulkLen == 0
    requires n + 2 <= INT64_MAX
    ensures Parse("$" + FormatNat(n) + "\r\n" + rest, st) == Parse(rest, st.(bulkLen := n))
  {
    var digits := FormatNat(n);
    var hdr := "$" + digits + "\r\n";
    HeaderLine('$', digits, rest, st);
    assert hdr[..|hdr| - 2] == "$" + digits;
    assert ("$" + digits)[1..] == digits;
    ParseNat(n);
    assert ReadBody(st, hdr) == Handled(None, st.(bulkLen := n));
    assert Advance(hdr + rest, st) == Continue(None, rest, st.(bulkLen := n));
  }

  /** The body of a bulk string, with the pending length set to its size, is the next argument. */
  lemma BulkBodyStep(a: Bytes, st: ReadState, more: Bytes)
    requires st.readingMultiLine && st.msgType == '*' && |st.args| < st.expectedArgsCount && st.bulkLen == 0
    requires Plain(a)
    ensures var c := Collect(st.(args := st.args + [a]));
            Parse(a + "\r\n" + more, st.(bulkLen := |a|)) == Emit(c.out, Parse(more, c.state))
  {
    var body := a + "\r\n";
    var st2 := st.(bulkLen := |a|);
    var c := Collect(st.(args := st.args + [a]));
    if |a| == 0 {
      assert body + more == [] + "\r" + "\n" + more;
      FirstLine(body + more, "\r", more);
      assert ReadLine(body + more, st2) == Line("\r\n", more, st);
      assert ("\r\n")[..0] == [];
      assert ReadBody(st, "\r\n") == c;
    } else {
      assert (body + more)[..|a| + 2] == body;
      assert (body + more)[|a| + 2..] == more;
      assert ReadLine(body + more, st2) == Line(body, more, st);
      assert body[..|body| - 2] == a;
      assert ReadBody(st, body) == c;
    }
    assert Advance(body + more, st2) == Continue(c.out, more, c.state);
  }

  /** One bulk string, read while collecting a `*` message, adds exactly its bytes as the next argument. */
  lemma BulkFrame(a: Bytes, st: ReadState, more: Bytes)
    requires st.readingMultiLine && st.msgType == '*' && |st.args| < st.expectedArgsCount && st.bulkLen == 0
    requires Plain(a)
    ensures var c := Collect(st.(args := st.args + [a]));
            Parse(EncodeBulk(a) + more, st) == Emit(c.out, Parse(more, c.state))
  {
    assert EncodeBulk(a) + more == "$" + FormatNat(|a|) + "\r\n" + (a + "\r\n" + more);
    BulkHeaderStep(|a|, st, a + "\r\n" + more);
    BulkBodyStep(a, st, more);
  }

  /** The bulk strings of a command, read after its header, yield the multi-bulk reply of all of them. */
  lemma {:induction false} BulkFrames(args: seq<Bytes>, i: nat, more: Bytes)
    requires i < |args|
    requires forall k :: 0 <= k < |args| ==> Plain(args[k])
    ensures Parse(EncodeBulks(args[i..]) + more, ReadState(true, |args|, '*', args[..i], 0)) ==
            Emit(Some(Data(MultiBulkReply(Somes(args)))), Parse(more, Fresh))
    decreases |args| - i
  {
    var st := ReadState(true, |args|, '*', args[..i], 0);
    var a := args[i];
    var tail := EncodeBulks(args[i + 1..]) + more;
    assert args[i..][1..] == args[i + 1..];
    assert EncodeBulks(args[i..]) == EncodeBulk(a) + EncodeBulks(args[i + 1..]);
    assert EncodeBulks(args[i..]) + more == EncodeBulk(a) + tail;
    assert Plain(a);
    BulkFrame(a, st, tail);
    var st1 := st.(args := args[..i + 1]);
    assert st.args + [a] == args[..i + 1];
    if i + 1 == |args| {
      assert args[..i + 1] == args;
      assert Collect(st1) == Handled(Some(Data(MultiBulkReply(Somes(args)))), Fresh);
      assert args[i + 1..] == [];
      assert tail == more;
    } else {
      assert Collect(st1) == Handled(None, st1);
      BulkFrames(args, i + 1, more);
    }
  }

  /**
    A command sent as `*n` followed by n bulk strings, none starting with
    `$`, decodes to one multi-bulk reply holding exactly those strings, and
    the decoder is back in its fresh state for what follows.
   */
  lemma CommandRoundTrip(args: seq<Bytes>, more: Bytes)
    requires 0 < |args| <= UINT32_MAX
    requires forall k :: 0 <= k < |args| ==> Plain(args[k])
    ensures Parse(EncodeCommand(args) + more, Fresh) ==
            Emit(Some(Data(MultiBulkReply(Somes(args)))), Parse(more, Fresh))
  {
    var digits := FormatNat(|args|);
    var hdr := "*" + digits + "\r\n";
    var body := EncodeBulks(args) + more;
    assert EncodeCommand(args) + more == hdr + body;
    HeaderLine('*', digits, body, Fresh);
    assert hdr[1..|hdr| - 2] == digits;
    ParseUintFormatNat(|args|, UINT32_MAX);
    var st := ReadState(true, |args|, '*', [], 0);
    assert Handle(Fresh, hdr) == Handled(None, st);
    assert Advance(hdr + body, Fresh) == Continue(None, body, st);
    assert args[0..] == args && args[..0] == [];
    BulkFrames(args, 0, more);
  }

  /** A whole input holding one command decodes to its reply and then the end-of-file error. */
  lemma DecodeCommand(args: seq<Bytes>)
    requires 0 < |args| <= UINT32_MAX
    requires forall k :: 0 <= k < |args| ==> Plain(args[k])
    ensures Decode(EncodeCommand(args)) == Stream([Data(MultiBulkReply(Somes(args))), IOError(false)], Closed)
  {
    CommandRoundTrip(args, []);
    assert EncodeCommand(args) + [] == EncodeCommand(args);
  }

  /**
    A bulk body that starts with `$` is read as a length header instead:
    the argument `$-1` arrives as an empty string.
   */
  lemma DollarBodyReread(st: ReadState, more: Bytes)
    requires st.readingMultiLine && st.msgType == '*' && |st.args| < st.expectedArgsCount && st.bulkLen == 3
    ensures var c := Collect(st.(args := st.args + [[]], bulkLen := 0));
            Parse("$-1\r\n" + more, st) == Emit(c.out, Parse(more, c.state))
  {
    var body: Bytes := "$-1\r\n";
    assert (body + more)[..5] == body;
    assert (body + more)[5..] == more;
    var st0 := st.(bulkLen := 0);
    assert ReadLine(body + more, st) == Line(body, more, st0);
    assert body[..3] == "$-1" && body[..3][1..] == "-1";
    assert ParseInt("-1") == Num(-1) by {
      ParseIntFormatInt(-1);
      assert FormatInt(-1) == "-1";
    }
    var c := Collect(st0.(args := st0.args + [[]], bulkLen := 0));
    assert ReadBody(st0, body) == c;
    assert Advance(body + more, st) == Continue(c.out, more, c.state);
  }

  /** A line that does not end in CRLF is a protocol error; the loop resets and reads on. */
  lemma BadLineRecovers(p: Bytes, more: Bytes, st: ReadState)
    requires Consistent(st) && st.bulkLen == 0
    requires 0 < |p| && p[|p| - 1] != '\r' && forall j :: 0 <= j < |p| ==> p[j] != '\n'
    ensures Parse(p + "\n" + more, st) ==
            Emit(Some(ProtocolError(ProtocolErrorText(p + "\n"))), Parse(more, Fresh))
  {
    var input := p + "\n" + more;
    FirstLine(input, p, more);
    assert input[|p| - 1] == p[|p| - 1];
    assert ReadLine(input, st) == BadLine(ProtocolErrorText(p + "\n"), more);
    assert Advance(input, st) == Continue(Some(ProtocolError(ProtocolErrorText(p + "\n"))), more, Fresh);
  }

  /** A status line `+s` with no newline in s decodes to the status s. */
  lemma StatusLine(s: Bytes, more: Bytes)
    requires forall j :: 0 <= j < |s| ==> s[j] != '\n'
    ensures Parse("+" + s + "\r\n" + more, Fresh) == Emit(Some(Data(StatusReply(s))), Parse(more, Fresh))
  {
    var p := "+" + s;
    assert forall j :: 0 <= j < |p| ==> p[j] != '\n' by {
      forall j | 0 <= j < |p| ensures p[j] != '\n' {
        if 0 < j { assert p[j] == s[j - 1]; }
      }
    }
    CrlfLine(p, more, Fresh);
    var msg := p + "\r\n";
    assert msg[0] == '+';
    assert msg[1..|msg| - 2] == s;
    assert Handle(Fresh, msg) == Handled(Some(Data(StatusReply(s))), Fresh);
    assert Advance(msg + more, Fresh) == Continue(Some(Data(StatusReply(s))), more, Fresh);
  }
}
