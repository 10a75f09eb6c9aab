/**
  The append-only file's one pure step: before an `expire` command is
  logged it is rewritten to an `expireat` with an absolute Unix time, so
  that replaying the log later sets the same deadline rather than one
  counted from the replay. The file, its channel and its timer are not
  part of this model; the clock reading is a parameter.
 */
module Aof {
  import opened Base
  import Numbers
  import Values
  import Keyspace
  import opened Replies
  import opened CommandArgs
  import Executer

  /**
    ExpireToExpireAt: fewer than three arguments, or a seconds argument
    that is not an integer, leave the command as it is; otherwise the
    command becomes `expireat key t`, where t is the current Unix time plus
    the seconds (int64 addition, so it wraps), written in decimal. The
    command name is never looked at and arguments after the third are
    dropped.
   */
  function ExpireToExpireAt(args: seq<Bytes>, unixNow: int): (r: seq<Bytes>)
    ensures |args| < 3 || Atoi(args[2]).Fail? ==> r == args
    ensures |args| >= 3 && Atoi(args[2]).Ok? ==>
              && |r| == 3 && r[0] == "expireat" && r[1] == args[1]
              && r[2] == Numbers.FormatInt(Numbers.Wrap64(unixNow + Atoi(args[2]).value))
              && Atoi(r[2]) == Ok(Numbers.Wrap64(unixNow + Atoi(args[2]).value))
  {
    if |args| < 3 then args
    else
      match Atoi(args[2])
      case Fail(_) => args
      case Ok(sec) =>
        var t := Numbers.Wrap64(unixNow + sec);
        AtoiFormatInt(t);
        ["expireat", args[1], Numbers.FormatInt(t)]
  }

  /** The rewrite reads nothing but the key and the seconds: any command name gives the same result. */
  lemma RewriteIgnoresName(args: seq<Bytes>, name: Bytes, unixNow: int)
    requires |args| >= 3 && Atoi(args[2]).Ok?
    ensures ExpireToExpireAt([name] + args[1..], unixNow) == ExpireToExpireAt(args, unixNow)
  {
    assert ([name] + args[1..])[1..] == args[1..];
  }

  /**
    Replaying the rewritten command sets the deadline `expire` set, less
    the fraction of a second the clock had passed: `expire key n` at
    instant now (in nanoseconds) and, at any later instant, the logged
    `expireat` built from now's Unix seconds both reply 1, and the replayed
    deadline is at most one second earlier.
   */
  lemma ReplayDeadline(store: Keyspace.Store, key: Bytes, n: int, now: int, later: int)
    requires Keyspace.Valid(store) && Executer.Live(store, key, now) && Executer.Live(store, key, later)
    requires 0 <= now <= Numbers.INT64_MAX && 0 <= n <= Numbers.INT64_MAX / Values.NANOS_PER_SECOND
    ensures var e := Executer.Expire(store, ["expire", key, Numbers.FormatInt(n)], now);
            var a := Executer.Expireat(store, ExpireToExpireAt(["expire", key, Numbers.FormatInt(n)], now / Values.NANOS_PER_SECOND), later);
            && e.Normal? && a.Normal? && e.value.out == IntReply(1) && a.value.out == IntReply(1)
            && e.value.store[key].deadline.Some? && a.value.store[key].deadline.Some?
            && a.value.store[key].deadline.value == e.value.store[key].deadline.value - now % Values.NANOS_PER_SECOND
  {
    AtoiFormatInt(n);
    var cmd := ["expire", key, Numbers.FormatInt(n)];
    var unixNow := now / Values.NANOS_PER_SECOND;
    var t := unixNow + n;
    assert Numbers.IsInt64(t);
    assert ExpireToExpireAt(cmd, unixNow) == ["expireat", key, Numbers.FormatInt(t)];
    AtoiFormatInt(t);
    assert t * Values.NANOS_PER_SECOND == unixNow * Values.NANOS_PER_SECOND + n * Values.NANOS_PER_SECOND;
    assert now == unixNow * Values.NANOS_PER_SECOND + now % Values.NANOS_PER_SECOND;
  }
}
