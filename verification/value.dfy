/**
  A keyspace entry (entity/value.go): a payload of one of the three stored
  types and an optional time-to-live, represented by its deadline.

  Time is a count of nanoseconds since the epoch, and the wall clock `now`
  is a parameter of every operation that reads it. A Go `time.Duration` is
  an int64 count of nanoseconds; its arithmetic wraps, and `time.Until`
  saturates at the int64 bounds, as written out below.
 */
module Values {
  import opened Base
  import Numbers
  import Lists
  import SortedSets

  /** What a `Value.V` holds in the keyspace: a byte string, a list or a sorted set. */
  datatype Data =
    | Str(bytes: Bytes)
    | ListData(list: Lists.List)
    | ZSetData(zset: SortedSets.SortedSet)

  /** A stored value; `deadline` is None when the value has no TTL. */
  datatype Value = Value(data: Data, deadline: Option<int>)

  const NANOS_PER_SECOND: int := 1_000_000_000

  /** Seconds from the start of year 1 to the epoch: the offset time.Time counts its seconds from. */
  const UNIX_TO_INTERNAL: int := 62_135_596_800

  /**
    time.Unix(sec, 0) as an instant in nanoseconds since the epoch. The time
    package keeps sec + UNIX_TO_INTERNAL, seconds since year 1, in an int64;
    near the top of the int64 range that sum wraps, and the instant lands
    before year 1.
   */
  function UnixInstant(sec: int): (t: int)
    requires Numbers.IsInt64(sec)
    ensures sec <= Numbers.INT64_MAX - UNIX_TO_INTERNAL ==> t == sec * NANOS_PER_SECOND
    ensures sec > Numbers.INT64_MAX - UNIX_TO_INTERNAL ==>
              t == (sec - Numbers.TWO_TO_64) * NANOS_PER_SECOND && t < -UNIX_TO_INTERNAL * NANOS_PER_SECOND
  {
    UnixWrap(sec);
    (Numbers.Wrap64(sec + UNIX_TO_INTERNAL) - UNIX_TO_INTERNAL) * NANOS_PER_SECOND
  }

  /** Where the int64 sum sec + UNIX_TO_INTERNAL wraps, it loses exactly 2^64. */
  lemma UnixWrap(sec: int)
    requires Numbers.IsInt64(sec)
    ensures sec > Numbers.INT64_MAX - UNIX_TO_INTERNAL ==>
              Numbers.Wrap64(sec + UNIX_TO_INTERNAL) == sec + UNIX_TO_INTERNAL - Numbers.TWO_TO_64
  {
    var n := sec + UNIX_TO_INTERNAL;
    if sec > Numbers.INT64_MAX - UNIX_TO_INTERNAL {
      var m := n - Numbers.INT64_MIN;
      assert Numbers.TWO_TO_64 <= m < 2 * Numbers.TWO_TO_64;
      assert m % Numbers.TWO_TO_64 == m - Numbers.TWO_TO_64;
    }
  }

  /** NewValue: a value without a TTL. */
  function NewValue(d: Data): (r: Value)
    ensures r.data == d
    ensures !HaveLife(r)
    ensures forall now :: !Expired(r, now)
  {
    Value(d, None)
  }

  /** HaveLife: whether a TTL is set. */
  predicate HaveLife(v: Value)
  {
    v.deadline.Some?
  }

  /** Expired: a TTL is set and the clock is strictly after its deadline. */
  predicate Expired(v: Value, now: int)
  {
    match v.deadline
    case None => false
    case Some(d) => now > d
  }

  /** SetTTL(d): the deadline becomes now + d, replacing any previous TTL. */
  function SetTTL(v: Value, lifeCycle: int, now: int): (r: Value)
    ensures r.data == v.data && HaveLife(r)
    ensures r.deadline == Some(now + lifeCycle)
    ensures lifeCycle >= 0 ==> !Expired(r, now)
    ensures lifeCycle < 0 ==> Expired(r, now)
  {
    Value(v.data, Some(now + lifeCycle))
  }

  /**
    SetDeadLine(t): the deadline becomes t, replacing any previous TTL.
    The constructor it calls (ttl.NewTTLWithDeadLine) is not part of this
    model; it is taken to keep the given deadline.
   */
  function SetDeadLine(v: Value, deadline: int): (r: Value)
    ensures r.data == v.data && HaveLife(r)
    ensures forall now :: Expired(r, now) <==> now > deadline
  {
    Value(v.data, Some(deadline))
  }

  /** Persist: drop the TTL; the value then never expires. */
  function Persist(v: Value): (r: Value)
    ensures r.data == v.data && !HaveLife(r)
    ensures forall now :: !Expired(r, now)
  {
    Value(v.data, None)
  }

  /**
    GetLeftLife: whole seconds until the deadline, truncated toward zero.
    `time.Until` saturates at the int64 bounds; dividing a Duration by
    `time.Second` truncates. The source dereferences the TTL, so the value
    must have one.
   */
  function GetLeftLife(v: Value, now: int): (r: int)
    requires HaveLife(v)
    ensures Numbers.IsInt64(r)
    ensures var left := v.deadline.value - now;
            Numbers.IsInt64(left) && left >= 0 ==> r * NANOS_PER_SECOND <= left < (r + 1) * NANOS_PER_SECOND
    ensures var left := v.deadline.value - now;
            Numbers.IsInt64(left) && left < 0 ==> (r - 1) * NANOS_PER_SECOND < left <= r * NANOS_PER_SECOND
    ensures r > 0 ==> !Expired(v, now)
    ensures Expired(v, now) ==> r <= 0
  {
    Numbers.QuoTrunc(Numbers.Saturate64(v.deadline.value - now), NANOS_PER_SECOND)
  }

  /** A duration of `second` seconds, as `time.Second * time.Duration(second)` computes it. */
  function Seconds(second: int): (d: int)
    requires Numbers.IsInt64(second)
    ensures Numbers.IsInt64(d)
    ensures Numbers.IsInt64(second * NANOS_PER_SECOND) ==> d == second * NANOS_PER_SECOND
  {
    Numbers.Wrap64(second * NANOS_PER_SECOND)
  }

  // ---------------------------------------------------------------------
  // Lifecycle lemmas
  // ---------------------------------------------------------------------

  /** A value that has expired stays expired as the clock advances. */
  lemma ExpiredStays(v: Value, now: int, later: int)
    requires Expired(v, now) && now <= later
    ensures Expired(v, later)
  {
  }

  /** Expired implies a TTL is set. */
  lemma ExpiredHasLife(v: Value, now: int)
    requires Expired(v, now)
    ensures HaveLife(v)
  {
  }

  /** A TTL of n whole seconds, read back at once, reports exactly n seconds left. */
  lemma SetTTLLeftLife(v: Value, second: int, now: int)
    requires 0 <= second <= Numbers.INT64_MAX / NANOS_PER_SECOND
    ensures GetLeftLife(SetTTL(v, Seconds(second), now), now) == second
  {
    var d := Seconds(second);
    assert d == second * NANOS_PER_SECOND;
    assert Numbers.Saturate64(d) == d;
    assert Numbers.QuoTrunc(d, NANOS_PER_SECOND) == second;
  }

  /** The time left never grows as the clock advances. */
  lemma LeftLifeMonotone(v: Value, now: int, later: int)
    requires HaveLife(v) && now <= later
    ensures GetLeftLife(v, later) <= GetLeftLife(v, now)
  {
    var a := Numbers.Saturate64(v.deadline.value - later);
    var b := Numbers.Saturate64(v.deadline.value - now);
    assert a <= b;
    QuoTruncMonotone(a, b);
  }

  lemma QuoTruncMonotone(a: int, b: int)
    requires a <= b
    ensures Numbers.QuoTrunc(a, NANOS_PER_SECOND) <= Numbers.QuoTrunc(b, NANOS_PER_SECOND)
  {
  }

  /** Setting a deadline and then persisting leaves the value as if it never had a TTL. */
  lemma PersistUndoes(v: Value, deadline: int)
    ensures Persist(SetDeadLine(v, deadline)) == NewValue(v.data)
    ensures Persist(Persist(v)) == Persist(v)
  {
  }
}
