/**
  The command executor (executer/executer.go): one decoded command, given as
  its argument vector, applied to the keyspace, yielding the new keyspace and
  the reply.

  `Execute` matches the command name exactly (no case folding) and hands the
  arguments to one function per command. What the executor reads besides
  the keyspace is collected in `Env`: the wall clock, the random levels the
  skiplist draws for new nodes, Go's `%v` float formatting, and the order
  in which a walk over the Go map meets its keys. A runtime panic in the
  keyspace is the `Panic` outcome: nothing on the way up to the connection
  handler recovers from it, so it ends the server.
 */
module Executer {
  import opened Base
  import Numbers
  import Values
  import Keyspace
  import Skiplist
  import SortedSets
  import SkiplistOps
  import opened ZOrder
  import opened Border
  import opened Replies
  import opened CommandArgs

  type Store = Keyspace.Store

  /** A node level the skiplist's randomLevel may draw (its 17 is left out). */
  type Level = l: int | 1 <= l <= Skiplist.MaxLevel witness 1

  datatype Env = Env(now: int, level: nat -> Level, format: real -> Bytes, order: seq<Bytes>)

  /** A command's effect: the new keyspace and the reply, or a panic. */
  type Done = Outcome<Keyspace.Step<Reply>>

  function Answer(store: Store, reply: Reply): Done
  {
    Normal(Keyspace.Step(store, reply))
  }

  /** The key is present and has not expired: what Get reports as existing. */
  predicate Live(store: Store, key: Bytes, now: int)
  {
    key in store && !Values.Expired(store[key], now)
  }

  /** The listed keys that are present but expired. */
  function Stale(store: Store, keys: seq<Bytes>, now: int): set<Bytes>
  {
    set k | k in keys && k in store && Values.Expired(store[k], now)
  }

  /** The listed keys that are live. */
  function LiveAmong(store: Store, keys: seq<Bytes>, now: int): set<Bytes>
  {
    set k | k in keys && Live(store, k, now)
  }

  /** Subtracting keys keeps every remaining sorted set valid. */
  lemma SubtractValid(store: Store, keys: set<Bytes>)
    requires Keyspace.Valid(store)
    ensures Keyspace.Valid(store - keys)
  {
  }

  // ---------------------------------------------------------------------
  // Strings and keys
  // ---------------------------------------------------------------------

  /** What get and mget do after reading a key: an expired key is deleted. */
  function Sweep(store: Store, key: Bytes, now: int): Store
  {
    if Keyspace.Get(store, key, now).err == Some(Keyspace.KeyExpiredErr) then Keyspace.Del(store, key) else store
  }

  /** Sweeping one key changes what no key reads. */
  lemma SweepKeepsReads(store: Store, key: Bytes, now: int)
    ensures forall k :: Keyspace.Get(Sweep(store, key, now), k, now).bytes == Keyspace.Get(store, k, now).bytes
  {
    forall k ensures Keyspace.Get(Sweep(store, key, now), k, now).bytes == Keyspace.Get(store, k, now).bytes {
      if k != key {
        Keyspace.SetDelElsewhere(store, key, k, [], now);
      }
    }
  }

  /** Sweeping the first key, then the stale keys among the rest, removes the stale keys among all. */
  lemma SweepStale(store: Store, keys: seq<Bytes>, now: int)
    requires |keys| > 0
    ensures Sweep(store, keys[0], now) - Stale(Sweep(store, keys[0], now), keys[1..], now) == store - Stale(store, keys, now)
  {
    forall m ensures m in keys <==> m == keys[0] || m in keys[1..] {
      if m in keys {
        var i :| 0 <= i < |keys| && keys[i] == m;
        if i > 0 { assert keys[1..][i - 1] == m; }
      }
    }
  }

  /**
    get: the bulk reply holds the bytes of a live string and nil otherwise;
    a key found expired is deleted, and nothing else changes.
   */
  function Get(store: Store, args: seq<Bytes>, now: int): (r: Keyspace.Step<Reply>)
    ensures |args| < 2 ==> r == Keyspace.Step(store, ErrReply(MissParam))
    ensures |args| >= 2 ==> r.out.BulkReply? && r.store == store - Stale(store, [args[1]], now)
    ensures |args| >= 2 ==> (r.out.arg.Some? <==> Live(store, args[1], now) && store[args[1]].data.Str?)
    ensures |args| >= 2 && r.out.arg.Some? ==> r.out.arg.value == store[args[1]].data.bytes
  {
    if |args| < 2 then Keyspace.Step(store, ErrReply(MissParam))
    else
      assert [args[1]][1..] == [];
      SweepStale(store, [args[1]], now);
      Keyspace.Step(Sweep(store, args[1], now), BulkReply(Keyspace.Get(store, args[1], now).bytes))
  }

  /**
    mget's loop: read each key in turn against the keyspace the previous
    reads left. Every read gives what it would have given on the original
    keyspace, and the keys found expired are gone afterwards.
   */
  function GetAll(store: Store, keys: seq<Bytes>, now: int): (r: Keyspace.Step<seq<Option<Bytes>>>)
    ensures |r.out| == |keys|
    ensures forall i :: 0 <= i < |keys| ==> r.out[i] == Keyspace.Get(store, keys[i], now).bytes
    ensures r.store == store - Stale(store, keys, now)
    decreases |keys|
  {
    if |keys| == 0 then
      assert store - Stale(store, keys, now) == store;
      Keyspace.Step(store, [])
    else
      var swept := Sweep(store, keys[0], now);
      var rest := GetAll(swept, keys[1..], now);
      SweepKeepsReads(store, keys[0], now);
      SweepStale(store, keys, now);
      assert forall i :: 0 < i < |keys| ==> keys[1..][i - 1] == keys[i];
      Keyspace.Step(rest.store, [Keyspace.Get(store, keys[0], now).bytes] + rest.out)
  }

  /** The keys of the pairs. */
  function PairKeys(kvs: seq<Bytes>): set<Bytes>
  {
    set j | 0 <= j < |kvs| / 2 :: FirstOf(kvs, j)
  }

  /** mset's loop: set each `key value` pair in turn; a trailing key without a value is ignored. */
  function SetPairs(store: Store, kvs: seq<Bytes>): (r: Store)
    ensures forall k :: k in r <==> k in store || k in PairKeys(kvs)
    ensures Keyspace.Valid(store) ==> Keyspace.Valid(r)
    decreases |kvs|
  {
    if |kvs| < 2 then
      assert PairKeys(kvs) == {};
      store
    else
      PairKeysStep(kvs);
      SetPairs(Keyspace.Set(store, kvs[0], kvs[1]), kvs[2..])
  }

  /** Pair j is the last pair with its key. */
  predicate LastPair(kvs: seq<Bytes>, j: int)
  {
    0 <= j < |kvs| / 2 && forall i :: j < i < |kvs| / 2 ==> FirstOf(kvs, i) != FirstOf(kvs, j)
  }

  /** mset leaves every key outside the pairs untouched. */
  lemma {:induction false} SetPairsKeeps(store: Store, kvs: seq<Bytes>)
    ensures forall k :: k in store && k !in PairKeys(kvs) ==> SetPairs(store, kvs)[k] == store[k]
    decreases |kvs|
  {
    if |kvs| >= 2 {
      var next := Keyspace.Set(store, kvs[0], kvs[1]);
      SetPairsKeeps(next, kvs[2..]);
      PairKeysStep(kvs);
    }
  }

  /**
    After mset each pair's key holds its value as a string without a TTL;
    a key given twice holds the value of its last pair.
   */
  lemma SetPairsLastWins(store: Store, kvs: seq<Bytes>)
    ensures forall j :: LastPair(kvs, j) ==>
              FirstOf(kvs, j) in SetPairs(store, kvs) &&
              SetPairs(store, kvs)[FirstOf(kvs, j)] == Values.NewValue(Values.Str(SecondOf(kvs, j)))
  {
    forall j | LastPair(kvs, j)
      ensures FirstOf(kvs, j) in SetPairs(store, kvs)
      ensures SetPairs(store, kvs)[FirstOf(kvs, j)] == Values.NewValue(Values.Str(SecondOf(kvs, j)))
    {
      LastPairWins(store, kvs, j);
    }
  }

  lemma {:induction false} LastPairWins(store: Store, kvs: seq<Bytes>, j: int)
    requires LastPair(kvs, j)
    ensures FirstOf(kvs, j) in SetPairs(store, kvs)
    ensures SetPairs(store, kvs)[FirstOf(kvs, j)] == Values.NewValue(Values.Str(SecondOf(kvs, j)))
    decreases j
  {
    if j == 0 {
      FirstPairWins(store, kvs);
    } else {
      LastPairShift(kvs, j);
      LastPairWins(Keyspace.Set(store, kvs[0], kvs[1]), kvs[2..], j - 1);
    }
  }

  /** A first pair whose key is not repeated sets that key for good. */
  lemma FirstPairWins(store: Store, kvs: seq<Bytes>)
    requires LastPair(kvs, 0)
    ensures kvs[0] in SetPairs(store, kvs)
    ensures SetPairs(store, kvs)[kvs[0]] == Values.NewValue(Values.Str(kvs[1]))
  {
    var next := Keyspace.Set(store, kvs[0], kvs[1]);
    LastPairNotLater(kvs);
    SetPairsKeeps(next, kvs[2..]);
  }

  /** The key of a last first pair appears in no later pair. */
  lemma LastPairNotLater(kvs: seq<Bytes>)
    requires LastPair(kvs, 0)
    ensures kvs[0] !in PairKeys(kvs[2..])
  {
    forall i | 0 <= i < |kvs[2..]| / 2 ensures FirstOf(kvs[2..], i) != kvs[0] {
      PairsShift(kvs, i);
    }
  }

  /** A last pair after the first stays last once the first pair is dropped. */
  lemma LastPairShift(kvs: seq<Bytes>, j: int)
    requires LastPair(kvs, j) && j > 0
    ensures LastPair(kvs[2..], j - 1)
    ensures FirstOf(kvs[2..], j - 1) == FirstOf(kvs, j) && SecondOf(kvs[2..], j - 1) == SecondOf(kvs, j)
  {
    PairsShift(kvs, j - 1);
    forall i | j - 1 < i < |kvs[2..]| / 2 ensures FirstOf(kvs[2..], i) != FirstOf(kvs[2..], j - 1) {
      PairsShift(kvs, i);
    }
  }

  /** The pair keys split into the first pair's key and the rest's. */
  lemma PairKeysStep(kvs: seq<Bytes>)
    requires |kvs| >= 2
    ensures PairKeys(kvs) == {kvs[0]} + PairKeys(kvs[2..])
  {
    assert FirstOf(kvs, 0) == kvs[0];
    forall k ensures k in PairKeys(kvs) <==> k == kvs[0] || k in PairKeys(kvs[2..]) {
      if k in PairKeys(kvs[2..]) {
        var i :| 0 <= i < |kvs[2..]| / 2 && FirstOf(kvs[2..], i) == k;
        PairsShift(kvs, i);
      }
      if k in PairKeys(kvs) && k != kvs[0] {
        var i :| 0 <= i < |kvs| / 2 && FirstOf(kvs, i) == k;
        PairsShift(kvs, i - 1);
      }
    }
  }

  /** Whether some pair's key is live: msetnx's first loop. */
  function AnyLive(store: Store, kvs: seq<Bytes>, now: int): (b: bool)
    ensures b <==> exists k :: k in PairKeys(kvs) && Live(store, k, now)
    decreases |kvs|
  {
    if |kvs| < 2 then
      assert PairKeys(kvs) == {};
      false
    else
      PairKeysStep(kvs);
      Keyspace.Get(store, kvs[0], now).exist || AnyLive(store, kvs[2..], now)
  }

  /**
    msetnx: when any pair's key is live the reply is the error "0" and
    nothing is written; otherwise every pair is set.
   */
  function Msetnx(store: Store, args: seq<Bytes>, now: int): (r: Keyspace.Step<Reply>)
    requires |args| >= 1
    ensures (exists k :: k in PairKeys(args[1..]) && Live(store, k, now)) ==> r == Keyspace.Step(store, ErrText("0"))
    ensures (forall k :: k in PairKeys(args[1..]) ==> !Live(store, k, now)) ==>
              r == Keyspace.Step(SetPairs(store, args[1..]), StatusReply(NoErr))
  {
    if AnyLive(store, args[1..], now) then Keyspace.Step(store, ErrText("0"))
    else Keyspace.Step(SetPairs(store, args[1..]), StatusReply(NoErr))
  }

  /**
    del's loop: a key Get reports as existing is deleted and counted. The
    reply counts each distinct live key once, and exactly those are gone.
   */
  function DelAll(store: Store, keys: seq<Bytes>, now: int): (r: Keyspace.Step<int>)
    ensures r.out == |LiveAmong(store, keys, now)|
    ensures r.store == store - LiveAmong(store, keys, now)
    decreases |keys|
  {
    if |keys| == 0 then
      assert LiveAmong(store, keys, now) == {};
      Keyspace.Step(store, 0)
    else if Keyspace.Get(store, keys[0], now).exist then
      var rest := DelAll(Keyspace.Del(store, keys[0]), keys[1..], now);
      DelStep(store, keys, now);
      Keyspace.Step(rest.store, rest.out + 1)
    else
      var rest := DelAll(store, keys[1..], now);
      DelStep(store, keys, now);
      Keyspace.Step(rest.store, rest.out)
  }

  lemma DelStep(store: Store, keys: seq<Bytes>, now: int)
    requires |keys| > 0
    ensures var k := keys[0];
            var after := LiveAmong(Keyspace.Del(store, k), keys[1..], now);
            Live(store, k, now) ==>
              && LiveAmong(store, keys, now) == after + {k}
              && |LiveAmong(store, keys, now)| == |after| + 1
              && Keyspace.Del(store, k) - after == store - LiveAmong(store, keys, now)
    ensures !Live(store, keys[0], now) ==> LiveAmong(store, keys, now) == LiveAmong(store, keys[1..], now)
  {
    var k := keys[0];
    forall m ensures m in keys <==> m == k || m in keys[1..] {
      if m in keys {
        var i :| 0 <= i < |keys| && keys[i] == m;
        if i > 0 { assert keys[1..][i - 1] == m; }
      }
    }
    var after := LiveAmong(Keyspace.Del(store, k), keys[1..], now);
    assert k !in after;
  }

  // ---------------------------------------------------------------------
  // TTL
  // ---------------------------------------------------------------------

  /**
    expire key seconds: 0 for a key that is missing or expired, the Atoi
    error for a bad amount, else the TTL becomes that many seconds from now
    and the reply is 1.
   */
  function Expire(store: Store, args: seq<Bytes>, now: int): (r: Done)
    ensures |args| < 3 ==> r == Answer(store, ErrReply(MissParam))
    ensures |args| >= 3 && !Live(store, args[1], now) ==> r == Answer(store, IntReply(0))
    ensures |args| >= 3 && Live(store, args[1], now) && Atoi(args[2]).Fail? ==> r == Answer(store, ErrReply(Atoi(args[2]).err))
    ensures |args| >= 3 && Live(store, args[1], now) && Atoi(args[2]).Ok? ==>
              && r.Normal? && r.value.out == IntReply(1)
              && args[1] in r.value.store
              && r.value.store[args[1]].data == store[args[1]].data
              && r.value.store[args[1]].deadline == Some(now + Values.Seconds(Atoi(args[2]).value))
              && Keyspace.Elsewhere(r.value.store, store, args[1])
  {
    if |args| < 3 then Answer(store, ErrReply(MissParam))
    else if !Keyspace.Get(store, args[1], now).exist then Answer(store, IntReply(0))
    else match Atoi(args[2])
      case Fail(e) => Answer(store, ErrReply(e))
      case Ok(n) =>
        match Keyspace.SetTTL(store, args[1], n, now)
        case Panic => Panic
        case Normal(s) => Answer(s, IntReply(1))
  }

  /**
    expireat key unix-seconds: as expire, with the deadline set to the
    instant `time.Unix(sec, 0)` names, which wraps to before year 1 for
    seconds near the top of the int64 range.
   */
  function Expireat(store: Store, args: seq<Bytes>, now: int): (r: Done)
    ensures |args| < 3 ==> r == Answer(store, ErrReply(MissParam))
    ensures |args| >= 3 && !Live(store, args[1], now) ==> r == Answer(store, IntReply(0))
    ensures |args| >= 3 && Live(store, args[1], now) && Atoi(args[2]).Fail? ==> r == Answer(store, ErrReply(Atoi(args[2]).err))
    ensures |args| >= 3 && Live(store, args[1], now) && Atoi(args[2]).Ok? ==>
              && r.Normal? && r.value.out == IntReply(1)
              && args[1] in r.value.store
              && r.value.store[args[1]].data == store[args[1]].data
              && r.value.store[args[1]].deadline == Some(Values.UnixInstant(Atoi(args[2]).value))
              && Keyspace.Elsewhere(r.value.store, store, args[1])
  {
    if |args| < 3 then Answer(store, ErrReply(MissParam))
    else if !Keyspace.Get(store, args[1], now).exist then Answer(store, IntReply(0))
    else match Atoi(args[2])
      case Fail(e) => Answer(store, ErrReply(e))
      case Ok(sec) =>
        match Keyspace.SetDeadLine(store, args[1], Values.UnixInstant(sec))
        case Panic => Panic
        case Normal(s) => Answer(s, IntReply(1))
  }

  /** persist: 0 for a key that is missing or expired, else Persist's 0 or 1. */
  function Persist(store: Store, args: seq<Bytes>, now: int): (r: Done)
    ensures |args| < 2 ==> r == Answer(store, ErrReply(MissParam))
    ensures |args| >= 2 && !Live(store, args[1], now) ==> r == Answer(store, IntReply(0))
    ensures |args| >= 2 && Live(store, args[1], now) ==>
              && r.Normal?
              && r.value.out == IntReply(if Values.HaveLife(store[args[1]]) then 1 else 0)
              && args[1] in r.value.store && !Values.HaveLife(r.value.store[args[1]])
              && r.value.store[args[1]].data == store[args[1]].data
              && Keyspace.Elsewhere(r.value.store, store, args[1])
  {
    if |args| < 2 then Answer(store, ErrReply(MissParam))
    else if !Keyspace.Get(store, args[1], now).exist then Answer(store, IntReply(0))
    else match Keyspace.Persist(store, args[1])
      case Panic => Panic
      case Normal(p) => Answer(p.store, IntReply(p.out))
  }

  // ---------------------------------------------------------------------
  // Lists
  // ---------------------------------------------------------------------

  /** The reply of a list or sorted-set read: its error, or its values. */
  function ListReply(r: Result<seq<Bytes>>): Reply
  {
    match r
    case Fail(e) => ErrReply(e)
    case Ok(v) => MultiBulkReply(Somes(v))
  }

  /** The reply of a counting operation: its error, or the count. */
  function CountReply(r: Result<int>): Reply
  {
    match r
    case Fail(e) => ErrReply(e)
    case Ok(n) => IntReply(n)
  }

  /**
    lpush / rpush key values...: the argument error, the type error for a
    key of another type, else the number of values pushed.
   */
  function Push(store: Store, args: seq<Bytes>, head: bool): (r: Keyspace.Step<Reply>)
    ensures |args| < 3 ==> r == Keyspace.Step(store, ErrReply(MissParam))
    ensures |args| >= 3 && Keyspace.ListOf(store, args[1]).WrongType? ==>
              r == Keyspace.Step(store, ErrReply(Keyspace.TypeNotMatchedErr))
    ensures |args| >= 3 && !Keyspace.ListOf(store, args[1]).WrongType? ==>
              && r.out == IntReply(|args| - 2)
              && Keyspace.ListOf(r.store, args[1]).Found?
              && Keyspace.ListOf(r.store, args[1]).value.items ==
                   (if head then Reverse(args[2..]) + Keyspace.ListItems(store, args[1])
                    else Keyspace.ListItems(store, args[1]) + args[2..])
              && Keyspace.Elsewhere(r.store, store, args[1])
  {
    match PrePush(args)
    case Fail(e) => Keyspace.Step(store, ErrReply(e))
    case Ok(values) =>
      assert values == args[2..];
      var s := if head then Keyspace.Lpush(store, args[1], values) else Keyspace.Rpush(store, args[1], values);
      if s.out == -1 then Keyspace.Step(s.store, ErrReply(Keyspace.TypeNotMatchedErr))
      else Keyspace.Step(s.store, IntReply(s.out))
  }

  function Lrange(store: Store, args: seq<Bytes>): Reply
  {
    match PreLrange(args)
    case Fail(e) => ErrReply(e)
    case Ok(a) => ListReply(Keyspace.Lrange(store, a.key, a.start, a.stop))
  }

  function Lindex(store: Store, args: seq<Bytes>): Reply
  {
    match PreLindex(args)
    case Fail(e) => ErrReply(e)
    case Ok(a) =>
      match Keyspace.Lindex(store, a.key, a.index)
      case Fail(e) => ErrReply(e)
      case Ok(v) => BulkReply(v)
  }

  function Linsert(store: Store, args: seq<Bytes>): (r: Keyspace.Step<Reply>)
    requires Keyspace.Valid(store)
    ensures Keyspace.Valid(r.store)
  {
    match PreLinsert(args)
    case Fail(e) => Keyspace.Step(store, ErrReply(e))
    case Ok(a) =>
      var s := Keyspace.Linsert(store, a.key, a.before, a.pivot, a.value);
      Keyspace.Step(s.store, CountReply(s.out))
  }

  function Lrem(store: Store, args: seq<Bytes>): (r: Done)
    requires Keyspace.Valid(store)
    ensures r.Normal? ==> Keyspace.Valid(r.value.store)
  {
    match PreLrem(args)
    case Fail(e) => Answer(store, ErrReply(e))
    case Ok(a) =>
      match Keyspace.Lrem(store, a.key, a.count, a.value)
      case Panic => Panic
      case Normal(s) => Answer(s.store, CountReply(s.out))
  }

  function Ltrim(store: Store, args: seq<Bytes>): (r: Done)
    requires Keyspace.Valid(store)
    ensures r.Normal? ==> Keyspace.Valid(r.value.store)
  {
    match PreLrange(args)
    case Fail(e) => Answer(store, ErrReply(e))
    case Ok(a) =>
      match Keyspace.Ltrim(store, a.key, a.start, a.stop)
      case Panic => Panic
      case Normal(s) => Answer(s.store, if s.out.Some? then ErrReply(s.out.value) else OkReply)
  }

  /**
    lset: the list is updated as Lset says, but the reply tests the argument
    parser's error, which is nil by then, so it is OK even when Lset failed.
   */
  function Lset(store: Store, args: seq<Bytes>): (r: Keyspace.Step<Reply>)
    requires Keyspace.Valid(store)
    ensures Keyspace.Valid(r.store)
    ensures PreLset(args).Fail? ==> r == Keyspace.Step(store, ErrReply(PreLset(args).err))
    ensures PreLset(args).Ok? ==>
              var a := PreLset(args).value;
              r == Keyspace.Step(Keyspace.Lset(store, a.key, a.index, a.value).store, OkReply)
  {
    match PreLset(args)
    case Fail(e) => Keyspace.Step(store, ErrReply(e))
    case Ok(a) =>
      var s := Keyspace.Lset(store, a.key, a.index, a.value);
      Keyspace.Step(s.store, OkReply)
  }

  /** lpop / rpop key [count]: the popped entries (nil for the last node), or an error. */
  function Pop(store: Store, args: seq<Bytes>, head: bool): (r: Done)
    requires Keyspace.Valid(store)
    ensures r.Normal? ==> Keyspace.Valid(r.value.store)
  {
    match PrePop(args)
    case Fail(e) => Answer(store, ErrReply(e))
    case Ok(a) =>
      var p := if head then Keyspace.Lpop(store, a.key, a.count) else Keyspace.Rpop(store, a.key, a.count);
      match p
      case Panic => Panic
      case Normal(s) =>
        match s.out
        case Fail(e) => Answer(s.store, ErrReply(e))
        case Ok(v) => Answer(s.store, MultiBulkReply(v))
  }

  // ---------------------------------------------------------------------
  // Sorted sets
  // ---------------------------------------------------------------------

  /** The levels the insertions of one zadd draw. */
  function Levels(env: Env, n: nat): (levels: seq<int>)
    ensures |levels| == n && Keyspace.LevelsOk(levels)
  {
    var levels := seq(n, i requires 0 <= i => env.level(i) as int);
    LevelsInRange(env, levels);
    levels
  }

  lemma LevelsInRange(env: Env, levels: seq<int>)
    requires forall i :: 0 <= i < |levels| ==> levels[i] == env.level(i) as int
    ensures Keyspace.LevelsOk(levels)
  {
    forall i | 0 <= i < |levels| ensures 1 <= levels[i] <= Skiplist.MaxLevel {
      var l: Level := env.level(i);
      assert levels[i] == l;
    }
  }

  /** zadd key score name ...: the argument error, or Zadd's count of new members. */
  function Zadd(store: Store, args: seq<Bytes>, env: Env): (r: Done)
    requires Keyspace.Valid(store)
    ensures r.Normal? ==> Keyspace.Valid(r.value.store)
    ensures PreZadd(args).Fail? ==> r == Answer(store, ErrReply(PreZadd(args).err))
    ensures PreZadd(args).Ok? ==>
              var z := PreZadd(args).value;
              var before := Keyspace.ZSetOf(store, args[1]);
              && r.Normal?
              && (before.WrongType? ==> r.value == Keyspace.Step(store, ErrReply(Keyspace.TypeNotMatchedErr)))
              && (!before.WrongType? ==>
                    var dict := if before.Found? then before.value.dict else map[];
                    && r.value.out == IntReply(|Keyspace.NewMembers(dict, z.names)|)
                    && Keyspace.ZSetOf(r.value.store, args[1]).Found?
                    && (forall m :: m in Keyspace.ZSetOf(r.value.store, args[1]).value.dict <==> m in dict || m in z.names)
                    && Keyspace.AddedScores(dict, Keyspace.ZSetOf(r.value.store, args[1]).value.dict, z.names, z.scores)
                    && Keyspace.Elsewhere(r.value.store, store, args[1]))
  {
    match PreZadd(args)
    case Fail(e) => Answer(store, ErrReply(e))
    case Ok(z) =>
      match Keyspace.Zadd(store, args[1], z.scores, z.names, Levels(env, |z.names|))
      case Panic => Panic
      case Normal(s) => Answer(s.store, CountReply(s.out))
  }

  /** zrange / zrevrange key start stop [WITHSCORES]. */
  function Zrange(store: Store, args: seq<Bytes>, desc: bool, format: real -> Bytes): Reply
    requires Keyspace.Valid(store)
  {
    match PreZrevrange(args)
    case Fail(e) => ErrReply(e)
    case Ok(w) => ListReply(Keyspace.Zrange(store, args[1], w.start, w.stop, desc, w.withScore, format))
  }

  /**
    zrangebyscore / zrevrangebyscore, given the result of the argument
    parser: a parser panic, its error, or the rows of the score walk.
   */
  function ScoreRange(store: Store, parsed: Outcome<Result<ScoreQuery>>, desc: bool, format: real -> Bytes): (r: Outcome<Reply>)
    requires Keyspace.Valid(store)
    ensures r.Panic? <==> parsed.Panic?
  {
    match parsed
    case Panic => Panic
    case Normal(Fail(e)) => Normal(ErrReply(e))
    case Normal(Ok(q)) =>
      Normal(ListReply(Keyspace.ZrangeByScore(store, q.key, q.min, q.max, q.withScore, desc, q.offset, q.count, format)))
  }

  /** Turn a reply that may panic into a command's effect on an unchanged keyspace. */
  function Reading(store: Store, r: Outcome<Reply>): Done
  {
    match r
    case Panic => Panic
    case Normal(reply) => Answer(store, reply)
  }

  /** zcount key min max: the count of members within the borders, or an error; it may panic. */
  function Zcount(store: Store, args: seq<Bytes>): Outcome<Reply>
    requires Keyspace.Valid(store)
  {
    if |args| < 4 then Normal(ErrReply(MissParam))
    else match Keyspace.Zcount(store, args[1], args[2], args[3])
      case Panic => Panic
      case Normal(n) => Normal(CountReply(n))
  }

  // ---------------------------------------------------------------------
  // Dispatch
  // ---------------------------------------------------------------------

  /** The command names Execute knows, spelled exactly as it matches them, by group. */
  const StringCommands: set<Bytes> := {"ping", "set", "get", "mset", "mget", "msetnx", "del", "keys", "exists"}
  const TtlCommands: set<Bytes> := {"expire", "ttl", "persist", "expireat"}
  const ListCommands: set<Bytes> :=
    {"lpush", "rpush", "lrange", "llen", "lindex", "linsert", "lrem", "ltrim", "lset", "lpop", "rpop"}
  const ZSetCommands: set<Bytes> :=
    {"zadd", "zrange", "zrevrange", "zrem", "zcard", "zcount", "zrangebyscore", "zrevrangebyscore", "zrank", "zrevrank"}

  predicate Known(name: Bytes)
  {
    name in StringCommands || name in TtlCommands || name in ListCommands || name in ZSetCommands
  }

  /** The reply to a name outside the group. */
  function Unknown(store: Store): Done
  {
    Answer(store, ErrText(ParamNotImplementedErr))
  }

  /** Execute's cases for the string and key commands. */
  function StringCommand(store: Store, args: seq<Bytes>, env: Env): (r: Done)
    requires Keyspace.Valid(store) && |args| > 0
    ensures args[0] !in StringCommands ==> r == Unknown(store)
    ensures r.Normal? ==> Keyspace.Valid(r.value.store)
  {
    var now := env.now;
    match args[0]
    case "ping" => Answer(store, BulkReply(Some("pong")))
    case "set" =>
      if |args| < 3 then Answer(store, ErrReply(MissParam))
      else Answer(Keyspace.Set(store, args[1], args[2]), StatusReply(NoErr))
    case "get" =>
      if |args| < 2 then Answer(store, ErrReply(MissParam))
      else
        SubtractValid(store, Stale(store, [args[1]], now));
        Normal(Get(store, args, now))
    case "mset" => Answer(SetPairs(store, args[1..]), StatusReply(NoErr))
    case "mget" =>
      var s := GetAll(store, args[1..], now);
      SubtractValid(store, Stale(store, args[1..], now));
      Answer(s.store, MultiBulkReply(s.out))
    case "msetnx" => Normal(Msetnx(store, args, now))
    case "del" =>
      if |args| < 2 then Answer(store, ErrReply(MissParam))
      else
        var s := DelAll(store, args[1..], now);
        SubtractValid(store, LiveAmong(store, args[1..], now));
        Answer(s.store, IntReply(s.out))
    case "keys" =>
      if |args| < 2 then Answer(store, ErrReply(MissParam))
      else if args[1] == "*" then Answer(store, MultiBulkReply(Somes(Keyspace.Keys(store, now, env.order))))
      else Answer(store, ErrText(ParamNotImplementedErr))
    case "exists" =>
      if |args| < 2 then Answer(store, ErrReply(MissParam))
      else Answer(store, IntReply(if Keyspace.Get(store, args[1], now).exist then 1 else 0))
    case _ => Unknown(store)
  }

  /** Execute's cases for the TTL commands. */
  function TtlCommand(store: Store, args: seq<Bytes>, env: Env): (r: Done)
    requires Keyspace.Valid(store) && |args| > 0
    ensures args[0] !in TtlCommands ==> r == Unknown(store)
    ensures r.Normal? ==> Keyspace.Valid(r.value.store)
  {
    match args[0]
    case "expire" => Expire(store, args, env.now)
    case "ttl" =>
      if |args| < 2 then Answer(store, ErrReply(MissParam))
      else Answer(store, IntReply(Keyspace.GetLeftLife(store, args[1], env.now)))
    case "persist" => Persist(store, args, env.now)
    case "expireat" => Expireat(store, args, env.now)
    case _ => Unknown(store)
  }

  /** Execute's cases for the list commands. */
  function ListCommand(store: Store, args: seq<Bytes>): (r: Done)
    requires Keyspace.Valid(store) && |args| > 0
    ensures args[0] !in ListCommands ==> r == Unknown(store)
    ensures r.Normal? ==> Keyspace.Valid(r.value.store)
  {
    match args[0]
    case "lpush" => Normal(Push(store, args, true))
    case "rpush" => Normal(Push(store, args, false))
    case "lrange" => Answer(store, Lrange(store, args))
    case "llen" =>
      if |args| < 2 then Answer(store, ErrReply(MissParam))
      else Answer(store, IntReply(Keyspace.Llen(store, args[1])))
    case "lindex" => Answer(store, Lindex(store, args))
    case "linsert" => Normal(Linsert(store, args))
    case "lrem" => Lrem(store, args)
    case "ltrim" => Ltrim(store, args)
    case "lset" => Normal(Lset(store, args))
    case "lpop" => Pop(store, args, true)
    case "rpop" => Pop(store, args, false)
    case _ => Unknown(store)
  }

  /** Execute's cases for the sorted-set commands. */
  function ZSetCommand(store: Store, args: seq<Bytes>, env: Env): (r: Done)
    requires Keyspace.Valid(store) && |args| > 0
    ensures args[0] !in ZSetCommands ==> r == Unknown(store)
    ensures r.Normal? ==> Keyspace.Valid(r.value.store)
  {
    match args[0]
    case "zadd" => Zadd(store, args, env)
    case "zrange" => Answer(store, Zrange(store, args, false, env.format))
    case "zrevrange" => Answer(store, Zrange(store, args, true, env.format))
    case "zrem" =>
      if |args| < 3 then Answer(store, ErrReply(MissParam))
      else
        var s := Keyspace.Zrem(store, args[1], args[2..]);
        Answer(s.store, CountReply(s.out))
    case "zcard" =>
      if |args| < 2 then Answer(store, ErrReply(MissParam))
      else Answer(store, CountReply(Keyspace.Zcard(store, args[1])))
    case "zcount" => Reading(store, Zcount(store, args))
    case "zrangebyscore" => Reading(store, ScoreRange(store, PreZrankByScoreAsWritten(args), false, env.format))
    case "zrevrangebyscore" => Reading(store, ScoreRange(store, PreZrankByScoreAsWritten(args), true, env.format))
    case "zrank" =>
      if |args| < 3 then Answer(store, ErrReply(MissParam))
      else Answer(store, CountReply(Keyspace.Zrank(store, args[1], args[2], false)))
    case "zrevrank" =>
      if |args| < 3 then Answer(store, ErrReply(MissParam))
      else Answer(store, CountReply(Keyspace.Zrank(store, args[1], args[2], true)))
    case _ => Unknown(store)
  }

  /**
    Execute: the reply to one command and the keyspace it leaves. An empty
    vector and an unknown name are answered with an error and change
    nothing; every command keeps the sorted sets valid.
   */
  function Execute(store: Store, args: seq<Bytes>, env: Env): (r: Done)
    requires Keyspace.Valid(store)
    ensures |args| == 0 ==> r == Answer(store, ErrText(ParamNotFoundErr))
    ensures |args| > 0 && !Known(args[0]) ==> r == Answer(store, ErrText(ParamNotImplementedErr))
    ensures r.Normal? ==> Keyspace.Valid(r.value.store)
  {
    if |args| == 0 then Answer(store, ErrText(ParamNotFoundErr))
    else if args[0] in StringCommands then StringCommand(store, args, env)
    else if args[0] in TtlCommands then TtlCommand(store, args, env)
    else if args[0] in ListCommands then ListCommand(store, args)
    else if args[0] in ZSetCommands then ZSetCommand(store, args, env)
    else Unknown(store)
  }

  // ---------------------------------------------------------------------
  // Properties across commands
  // ---------------------------------------------------------------------

  /** A string set by `set` is what `get` replies, at any later clock. */
  lemma SetThenGet(store: Store, key: Bytes, value: Bytes, env: Env, later: Env)
    requires Keyspace.Valid(store)
    ensures var s := StringCommand(store, ["set", key, value], env);
            && s == Answer(Keyspace.Set(store, key, value), StatusReply(NoErr))
            && StringCommand(s.value.store, ["get", key], later) == Answer(s.value.store, BulkReply(Some(value)))
  {
    var s := Keyspace.Set(store, key, value);
    assert Stale(s, [key], later.now) == {};
  }

  /**
    exists replies 1 exactly for a present key that has not expired, of any
    type, and changes nothing; for such a key get replies nil only when the
    value is not a string.
   */
  lemma ExistsReply(store: Store, key: Bytes, env: Env)
    requires Keyspace.Valid(store)
    ensures StringCommand(store, ["exists", key], env) ==
            Answer(store, IntReply(if key in store && !Values.Expired(store[key], env.now) then 1 else 0))
    ensures Live(store, key, env.now) ==>
              (StringCommand(store, ["get", key], env).value.out == BulkReply(None) <==> !store[key].data.Str?)
  {
    assert Stale(store, [key], env.now) <= {key};
  }

  /** A lower-case ASCII word. */
  predicate LowerWord(name: Bytes)
  {
    forall i :: 0 <= i < |name| ==> 'a' <= name[i] <= 'z'
  }

  /**
    Names are matched exactly, and every known name is a lower-case word,
    so a name with any other character (an upper-case spelling, say) is
    answered as not implemented.
   */
  lemma KnownLowerCase(name: Bytes)
    ensures Known(name) ==> LowerWord(name)
  {
  }

  /** Each entry of the mget reply is what `get` of that key alone would reply. */
  lemma MgetIsGets(store: Store, keys: seq<Bytes>, env: Env)
    requires Keyspace.Valid(store)
    ensures var m := StringCommand(store, ["mget"] + keys, env);
            && m.Normal? && m.value.out.MultiBulkReply? && |m.value.out.args| == |keys|
            && forall i :: 0 <= i < |keys| ==>
                 BulkReply(m.value.out.args[i]) == StringCommand(store, ["get", keys[i]], env).value.out
  {
    assert (["mget"] + keys)[1..] == keys;
  }

  /**
    del replies the number of distinct live keys it was given, and afterwards
    none of them exists while every other key is as before.
   */
  lemma DelThenExists(store: Store, keys: seq<Bytes>, env: Env, other: Bytes)
    requires Keyspace.Valid(store) && |keys| > 0
    ensures var d := StringCommand(store, ["del"] + keys, env);
            && d.Normal?
            && d.value.out == IntReply(|LiveAmong(store, keys, env.now)|)
            && (forall k :: k in keys ==> StringCommand(d.value.store, ["exists", k], env).value.out == IntReply(0))
            && (other !in keys && other in store ==> other in d.value.store && d.value.store[other] == store[other])
  {
    assert (["del"] + keys)[1..] == keys;
  }

  /** After mset, get of a key replies the value of the last pair that names it. */
  lemma MsetThenGet(store: Store, kvs: seq<Bytes>, j: int, env: Env, later: Env)
    requires Keyspace.Valid(store) && LastPair(kvs, j)
    ensures var s := StringCommand(store, ["mset"] + kvs, env);
            && s.Normal? && s.value.out == StatusReply(NoErr)
            && StringCommand(s.value.store, ["get", FirstOf(kvs, j)], later).value.out == BulkReply(Some(SecondOf(kvs, j)))
  {
    assert (["mset"] + kvs)[1..] == kvs;
    SetPairsLastWins(store, kvs);
  }

  /** msetnx writes every pair or none: none when a pair's key is live. */
  lemma MsetnxAllOrNothing(store: Store, kvs: seq<Bytes>, env: Env)
    requires Keyspace.Valid(store)
    ensures var s := StringCommand(store, ["msetnx"] + kvs, env);
            && s.Normal?
            && ((exists k :: k in PairKeys(kvs) && Live(store, k, env.now)) ==>
                  s.value == Keyspace.Step(store, ErrText("0")))
            && ((forall k :: k in PairKeys(kvs) ==> !Live(store, k, env.now)) ==>
                  s.value == Keyspace.Step(SetPairs(store, kvs), StatusReply(NoErr)))
  {
    assert (["msetnx"] + kvs)[1..] == kvs;
  }

  /** `expire key n` on a live key, then `ttl key`, replies n. */
  lemma ExpireThenTtl(store: Store, key: Bytes, n: int, env: Env)
    requires Keyspace.Valid(store) && Live(store, key, env.now)
    requires 0 <= n <= Numbers.INT64_MAX / Values.NANOS_PER_SECOND
    ensures var s := TtlCommand(store, ["expire", key, Numbers.FormatInt(n)], env);
            && s.Normal? && s.value.out == IntReply(1)
            && TtlCommand(s.value.store, ["ttl", key], env) == Answer(s.value.store, IntReply(n))
  {
    AtoiFormatInt(n);
    Values.SetTTLLeftLife(store[key], n, env.now);
  }

  /**
    `expireat key t` on a live key: the key exists at exactly the instants
    up to t seconds after the epoch.
   */
  lemma ExpireatThenExists(store: Store, key: Bytes, t: int, env: Env, later: Env)
    requires Keyspace.Valid(store) && Live(store, key, env.now) && Numbers.IsInt64(t)
    ensures var s := TtlCommand(store, ["expireat", key, Numbers.FormatInt(t)], env);
            && s.Normal? && s.value.out == IntReply(1)
            && StringCommand(s.value.store, ["exists", key], later).value.out ==
                 IntReply(if later.now <= Values.UnixInstant(t) then 1 else 0)
    ensures t <= Numbers.INT64_MAX - Values.UNIX_TO_INTERNAL ==>
              StringCommand(TtlCommand(store, ["expireat", key, Numbers.FormatInt(t)], env).value.store, ["exists", key], later).value.out ==
                IntReply(if later.now <= t * Values.NANOS_PER_SECOND then 1 else 0)
    ensures t > Numbers.INT64_MAX - Values.UNIX_TO_INTERNAL && later.now >= -Values.UNIX_TO_INTERNAL * Values.NANOS_PER_SECOND ==>
              StringCommand(TtlCommand(store, ["expireat", key, Numbers.FormatInt(t)], env).value.store, ["exists", key], later).value.out == IntReply(0)
  {
    AtoiFormatInt(t);
  }

  /**
    lset replies OK even when the list's Lset fails: on a missing key
    nothing is stored, yet the reply is OK.
   */
  lemma LsetAlwaysOk(store: Store, key: Bytes, index: int, value: Bytes, env: Env)
    requires Keyspace.Valid(store) && Numbers.IsInt64(index)
    ensures ListCommand(store, ["lset", key, Numbers.FormatInt(index), value]).value.out == OkReply
    ensures key !in store ==>
              && Keyspace.Lset(store, key, index, value).out == Some(Keyspace.KeyNotExistErr)
              && ListCommand(store, ["lset", key, Numbers.FormatInt(index), value]) == Answer(store, OkReply)
  {
    LsetArgs("lset", key, index, value);
  }

  // ---------------------------------------------------------------------
  // Score queries without LIMIT
  // ---------------------------------------------------------------------

  /** The arguments of a score query with borders and no options. */
  function ScoreArgs(key: Bytes, lo: Bytes, hi: Bytes): seq<Bytes>
  {
    ["zrangebyscore", key, lo, hi]
  }

  predicate Borders(lo: Bytes, hi: Bytes)
  {
    |lo| > 0 && |hi| > 0 && ParseScoreBorder(lo).Ok? && ParseScoreBorder(hi).Ok?
  }

  /**
    As written, a score query without LIMIT hands the walk a limit of 0, so
    it answers no rows whatever the sorted set holds.
   */
  lemma ScoreRangeAsWrittenEmpty(store: Store, key: Bytes, lo: Bytes, hi: Bytes, desc: bool, format: real -> Bytes)
    requires Keyspace.Valid(store) && Borders(lo, hi) && Keyspace.ZSetOf(store, key).Found?
    ensures ScoreRange(store, PreZrankByScoreAsWritten(ScoreArgs(key, lo, hi)), desc, format) == Normal(MultiBulkReply([]))
  {
  }

  /**
    With the count defaulting to -1, the same query answers every member
    within the borders, in walk order, unless hasInRange's value test rules
    the borders out (then it answers no rows).
   */
  lemma ScoreRangeAll(store: Store, key: Bytes, lo: Bytes, hi: Bytes, desc: bool, format: real -> Bytes)
    requires Keyspace.Valid(store) && Borders(lo, hi) && Keyspace.ZSetOf(store, key).Found?
    ensures var z := Keyspace.ZSetOf(store, key).value;
            var min, max := ParseScoreBorder(lo).value, ParseScoreBorder(hi).value;
            var inRange := SortedSets.Select(SortedSets.Ordered(z.sl.elems, desc), min, max, true);
            ScoreRange(store, PreZrankByScore(ScoreArgs(key, lo, hi)), desc, format) ==
              Normal(MultiBulkReply(Somes(Keyspace.Rows(if SkiplistOps.EmptyRangeAsWritten(min, max) then [] else inRange, false, format))))
  {
    var z := Keyspace.ZSetOf(store, key).value;
    SortedSets.RangeByScoreAll(z, ParseScoreBorder(lo).value, ParseScoreBorder(hi).value, desc);
  }

  /**
    So whenever a member lies within borders that hasInRange's value test
    admits, the two replies differ.
   */
  lemma ScoreRangeAsWrittenMisses(store: Store, key: Bytes, lo: Bytes, hi: Bytes, desc: bool, format: real -> Bytes)
    requires Keyspace.Valid(store) && Borders(lo, hi) && Keyspace.ZSetOf(store, key).Found?
    requires !SkiplistOps.EmptyRangeAsWritten(ParseScoreBorder(lo).value, ParseScoreBorder(hi).value)
    requires var z := Keyspace.ZSetOf(store, key).value;
             |SortedSets.Select(SortedSets.Ordered(z.sl.elems, desc), ParseScoreBorder(lo).value, ParseScoreBorder(hi).value, true)| > 0
    ensures ScoreRange(store, PreZrankByScoreAsWritten(ScoreArgs(key, lo, hi)), desc, format)
         != ScoreRange(store, PreZrankByScore(ScoreArgs(key, lo, hi)), desc, format)
  {
    ScoreRangeAsWrittenEmpty(store, key, lo, hi, desc, format);
    ScoreRangeAll(store, key, lo, hi, desc, format);
  }

  /**
    Execute answers `zrangebyscore key lo hi` with the query as written: on
    a sorted set and two well-formed borders, no rows and no change.
   */
  lemma ExecuteScoreRange(store: Store, key: Bytes, lo: Bytes, hi: Bytes, env: Env)
    requires Keyspace.Valid(store)
    ensures ZSetCommand(store, ScoreArgs(key, lo, hi), env) ==
              Reading(store, ScoreRange(store, PreZrankByScoreAsWritten(ScoreArgs(key, lo, hi)), false, env.format))
    ensures Borders(lo, hi) && Keyspace.ZSetOf(store, key).Found? ==>
              ZSetCommand(store, ScoreArgs(key, lo, hi), env) == Answer(store, MultiBulkReply([]))
  {
    if Borders(lo, hi) && Keyspace.ZSetOf(store, key).Found? {
      ScoreRangeAsWrittenEmpty(store, key, lo, hi, false, env.format);
    }
  }
}
