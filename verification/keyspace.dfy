/**
  The keyspace (datastore/map.go): a map from key to Value with the string,
  TTL, list and sorted-set operations the executor calls.

  Every operation runs under the map's mutex in the source, so each is one
  atomic step here: a function from the store (and the clock `now`, where
  the source reads it) to the new store and the reply. Values hold their
  payload by reference in the source; here an update writes the changed
  payload back under the same key, keeping the value's TTL. A nil
  dereference or another runtime panic is the `Panic` outcome.
 */
module Keyspace {
  import opened Base
  import Numbers
  import Lists
  import SortedSets
  import Skiplist
  import opened ZOrder
  import opened Border
  import opened Values

  type Store = map<Bytes, Value>

  const KeyNotExistsErr: Error := Msg("key not exists")
  const KeyExpiredErr: Error := Msg("key expired")
  const TypeNotMatchedErr: Error := Msg("type not matched")
  /** The error Lset builds itself for a missing key. */
  const KeyNotExistErr: Error := Msg("key not exist")

  /** Every sorted set in the store satisfies the sorted-set invariant. */
  predicate Valid(store: Store)
  {
    forall k :: k in store && store[k].data.ZSetData? ==> SortedSets.Valid(store[k].data.zset)
  }

  /** The store after an operation and the operation's reply. */
  datatype Step<+T> = Step(store: Store, out: T)

  /** Only `key` may differ between the two stores. */
  predicate Elsewhere(a: Store, b: Store, key: Bytes)
  {
    a - {key} == b - {key}
  }

  const Empty: Store := map[]

  lemma EmptyValid()
    ensures Valid(Empty)
  {
  }

  // ---------------------------------------------------------------------
  // Strings and keys
  // ---------------------------------------------------------------------

  /** Set: the key now holds the bytes, with no TTL. */
  function Set(store: Store, key: Bytes, value: Bytes): (r: Store)
    ensures key in r && r[key] == NewValue(Str(value))
    ensures Elsewhere(r, store, key)
    ensures Valid(store) ==> Valid(r)
  {
    store[key := NewValue(Str(value))]
  }

  /** Get's three results: the bytes (or nil), whether the key exists, and the error. */
  datatype Fetched = Fetched(bytes: Option<Bytes>, exist: bool, err: Option<Error>)

  /**
    Get: a missing key and an expired key do not exist; a live key holding
    another type exists but yields no bytes; only a live string yields its
    bytes, without error.
   */
  function Get(store: Store, key: Bytes, now: int): (r: Fetched)
    ensures r.exist <==> key in store && !Expired(store[key], now)
    ensures r.bytes.Some? <==> r.exist && store[key].data.Str?
    ensures r.bytes.Some? ==> r.bytes.value == store[key].data.bytes
    ensures r.err.None? <==> r.bytes.Some?
    ensures key !in store ==> r.err == Some(KeyNotExistsErr)
    ensures key in store && Expired(store[key], now) ==> r.err == Some(KeyExpiredErr)
    ensures r.exist && r.bytes.None? ==> r.err == Some(TypeNotMatchedErr)
  {
    if key !in store then Fetched(None, false, Some(KeyNotExistsErr))
    else if Expired(store[key], now) then Fetched(None, false, Some(KeyExpiredErr))
    else match store[key].data
      case Str(b) => Fetched(Some(b), true, None)
      case _ => Fetched(None, true, Some(TypeNotMatchedErr))
  }

  /** Del: the key is gone and nothing else changes. */
  function Del(store: Store, key: Bytes): (r: Store)
    ensures key !in r
    ensures Elsewhere(r, store, key)
    ensures Valid(store) ==> Valid(r)
  {
    store - {key}
  }

  /**
    Keys: the live keys, in the order the walk over the map meets them. Go's
    map iteration order is unspecified; `order` is that order, a listing of
    the map's keys.
   */
  function Keys(store: Store, now: int, order: seq<Bytes>): (keys: seq<Bytes>)
    ensures forall k :: k in keys <==> k in order && k in store && !Expired(store[k], now)
    ensures |keys| <= |order|
  {
    if |order| == 0 then []
    else
      var k := order[0];
      var rest := Keys(store, now, order[1..]);
      if k in store && !Expired(store[k], now) then [k] + rest else rest
  }

  /** No entry of `s` appears twice. */
  predicate Distinct(s: seq<Bytes>)
  {
    forall i, j :: 0 <= i < j < |s| ==> s[i] != s[j]
  }

  /**
    Over an order that lists every key of the map once, Keys lists every
    live key exactly once.
   */
  lemma KeysListsLive(store: Store, now: int, order: seq<Bytes>)
    requires forall k :: k in order <==> k in store
    requires Distinct(order)
    ensures forall k :: k in Keys(store, now, order) <==> k in store && !Expired(store[k], now)
    ensures Distinct(Keys(store, now, order))
  {
    KeysDistinct(store, now, order);
  }

  /** Keys lists no key twice when the order does not. */
  lemma {:induction false} KeysDistinct(store: Store, now: int, order: seq<Bytes>)
    requires Distinct(order)
    ensures Distinct(Keys(store, now, order))
    decreases |order|
  {
    if |order| > 0 {
      var k := order[0];
      assert Distinct(order[1..]) by {
        forall i, j | 0 <= i < j < |order| - 1 ensures order[1..][i] != order[1..][j] {
          assert order[1..][i] == order[i + 1] && order[1..][j] == order[j + 1];
        }
      }
      KeysDistinct(store, now, order[1..]);
      var rest := Keys(store, now, order[1..]);
      assert k !in order[1..] by {
        forall i | 0 <= i < |order| - 1 ensures order[1..][i] != k {
          assert order[1..][i] == order[i + 1];
        }
      }
      if k in store && !Expired(store[k], now) {
        var r := [k] + rest;
        forall i, j | 0 <= i < j < |r| ensures r[i] != r[j] {
          if i == 0 { assert r[j] == rest[j - 1]; assert r[j] in rest; }
          else { assert r[i] == rest[i - 1] && r[j] == rest[j - 1]; }
        }
      }
    }
  }

  // ---------------------------------------------------------------------
  // TTL
  // ---------------------------------------------------------------------

  /**
    SetTTL(key, second): the TTL becomes `second` seconds from now, the
    product computed as an int64 Duration. A missing key is a nil reference
    dereference.
   */
  function SetTTL(store: Store, key: Bytes, second: int, now: int): (r: Outcome<Store>)
    requires Numbers.IsInt64(second)
    ensures r.Panic? <==> key !in store
    ensures r.Normal? ==> key in r.value && r.value[key].data == store[key].data
    ensures r.Normal? ==> r.value[key].deadline == Some(now + Seconds(second))
    ensures r.Normal? ==> Elsewhere(r.value, store, key)
    ensures r.Normal? && Valid(store) ==> Valid(r.value)
  {
    if key !in store then Panic
    else Normal(store[key := Values.SetTTL(store[key], Seconds(second), now)])
  }

  /** SetDeadLine(key, t): the key's deadline becomes t; a missing key panics. */
  function SetDeadLine(store: Store, key: Bytes, deadline: int): (r: Outcome<Store>)
    ensures r.Panic? <==> key !in store
    ensures r.Normal? ==> key in r.value && r.value[key].data == store[key].data
    ensures r.Normal? ==> r.value[key].deadline == Some(deadline)
    ensures r.Normal? ==> Elsewhere(r.value, store, key)
    ensures r.Normal? && Valid(store) ==> Valid(r.value)
  {
    if key !in store then Panic
    else Normal(store[key := Values.SetDeadLine(store[key], deadline)])
  }

  /**
    GetLeftLife: -2 for a missing key, -1 for a key without a TTL, otherwise
    the value's whole seconds left (expired keys included, and never below
    the int64 range).
   */
  function GetLeftLife(store: Store, key: Bytes, now: int): (r: int)
    ensures key !in store ==> r == -2
    ensures key in store && !HaveLife(store[key]) ==> r == -1
    ensures key in store && HaveLife(store[key]) ==> r == Values.GetLeftLife(store[key], now)
    ensures Numbers.IsInt64(r)
  {
    if key !in store then -2
    else if !HaveLife(store[key]) then -1
    else Values.GetLeftLife(store[key], now)
  }

  /**
    Persist: 0 and no change for a key without a TTL; otherwise the TTL is
    dropped and the reply is 1. A missing key panics.
   */
  function Persist(store: Store, key: Bytes): (r: Outcome<Step<int>>)
    ensures r.Panic? <==> key !in store
    ensures r.Normal? ==> (r.value.out == 1 <==> HaveLife(store[key]))
    ensures r.Normal? ==> (r.value.out == 0 <==> !HaveLife(store[key]))
    ensures r.Normal? ==> key in r.value.store && r.value.store[key] == Values.Persist(store[key])
    ensures r.Normal? ==> Elsewhere(r.value.store, store, key)
    ensures r.Normal? && Valid(store) ==> Valid(r.value.store)
  {
    if key !in store then Panic
    else if !HaveLife(store[key]) then
      assert store[key] == Values.Persist(store[key]);
      assert store[key := store[key]] == store;
      Normal(Step(store, 0))
    else Normal(Step(store[key := Values.Persist(store[key])], 1))
  }

  // ---------------------------------------------------------------------
  // Typed lookups
  // ---------------------------------------------------------------------

  /** What a list or sorted-set operation finds under a key. */
  datatype Lookup<+T> = Missing | WrongType | Found(value: T)

  function ListOf(store: Store, key: Bytes): (r: Lookup<Lists.List>)
    ensures r.Missing? <==> key !in store
    ensures r.Found? <==> key in store && store[key].data.ListData?
    ensures r.Found? ==> r.value == store[key].data.list
  {
    if key !in store then Missing
    else match store[key].data
      case ListData(l) => Found(l)
      case _ => WrongType
  }

  function ZSetOf(store: Store, key: Bytes): (r: Lookup<SortedSets.SortedSet>)
    ensures r.Missing? <==> key !in store
    ensures r.Found? <==> key in store && store[key].data.ZSetData?
    ensures r.Found? ==> r.value == store[key].data.zset
    ensures r.Found? && Valid(store) ==> SortedSets.Valid(r.value)
  {
    if key !in store then Missing
    else match store[key].data
      case ZSetData(z) => Found(z)
      case _ => WrongType
  }

  /** The deadline a key keeps when its payload is replaced in place; a new key has none. */
  function KeptDeadline(store: Store, key: Bytes): Option<int>
  {
    if key in store then store[key].deadline else None
  }

  /** Write a list back under `key`, keeping the key's TTL. */
  function PutList(store: Store, key: Bytes, l: Lists.List): (r: Store)
    ensures key in r && r[key] == Value(ListData(l), KeptDeadline(store, key))
    ensures Elsewhere(r, store, key)
    ensures Valid(store) ==> Valid(r)
  {
    store[key := Value(ListData(l), KeptDeadline(store, key))]
  }

  /** Write a sorted set back under `key`, keeping the key's TTL. */
  function PutZSet(store: Store, key: Bytes, z: SortedSets.SortedSet): (r: Store)
    requires SortedSets.Valid(z)
    ensures key in r && r[key] == Value(ZSetData(z), KeptDeadline(store, key))
    ensures Elsewhere(r, store, key)
    ensures Valid(store) ==> Valid(r)
  {
    store[key := Value(ZSetData(z), KeptDeadline(store, key))]
  }

  // ---------------------------------------------------------------------
  // Lists
  // ---------------------------------------------------------------------

  /**
    Lpush: a missing key gets a new empty list first; a key of another type
    gives -1 and no change; otherwise the values are pushed at the head and
    the reply is the number of values, not the new length.
   */
  function Lpush(store: Store, key: Bytes, values: seq<Bytes>): (r: Step<int>)
    ensures ListOf(store, key).WrongType? ==> r == Step(store, -1)
    ensures !ListOf(store, key).WrongType? ==>
              && r.out == |values|
              && ListOf(r.store, key).Found?
              && ListOf(r.store, key).value.items == Reverse(values) + ListItems(store, key)
              && r.store[key].deadline == KeptDeadline(store, key)
              && Elsewhere(r.store, store, key)
    ensures Valid(store) ==> Valid(r.store)
  {
    match ListOf(store, key)
    case WrongType => Step(store, -1)
    case Missing => Step(PutList(store, key, Lists.Lpush(Lists.Empty, values)), |values|)
    case Found(l) => Step(PutList(store, key, Lists.Lpush(l, values)), |values|)
  }

  /** The items of the list under `key`; none for a missing key. */
  function ListItems(store: Store, key: Bytes): seq<Bytes>
  {
    match ListOf(store, key)
    case Found(l) => l.items
    case _ => []
  }

  /** Rpush: as Lpush, appending the values at the tail in order. */
  function Rpush(store: Store, key: Bytes, values: seq<Bytes>): (r: Step<int>)
    ensures ListOf(store, key).WrongType? ==> r == Step(store, -1)
    ensures !ListOf(store, key).WrongType? ==>
              && r.out == |values|
              && ListOf(r.store, key).Found?
              && ListOf(r.store, key).value.items == ListItems(store, key) + values
              && r.store[key].deadline == KeptDeadline(store, key)
              && Elsewhere(r.store, store, key)
    ensures Valid(store) ==> Valid(r.store)
  {
    match ListOf(store, key)
    case WrongType => Step(store, -1)
    case Missing => Step(PutList(store, key, Lists.Rpush(Lists.Empty, values)), |values|)
    case Found(l) => Step(PutList(store, key, Lists.Rpush(l, values)), |values|)
  }

  /** Lrange: no values for a missing key, an error for another type, else the list's window. */
  function Lrange(store: Store, key: Bytes, start: int, stop: int): (r: Result<seq<Bytes>>)
    ensures ListOf(store, key).Missing? ==> r == Ok([])
    ensures ListOf(store, key).WrongType? ==> r == Fail(TypeNotMatchedErr)
    ensures ListOf(store, key).Found? ==> r == Ok(Lists.Lrange(ListOf(store, key).value, start, stop))
  {
    match ListOf(store, key)
    case Missing => Ok([])
    case WrongType => Fail(TypeNotMatchedErr)
    case Found(l) => Ok(Lists.Lrange(l, start, stop))
  }

  /** Llen: the list's length; 0 for a missing key or another type. */
  function Llen(store: Store, key: Bytes): (r: int)
    ensures r == |ListItems(store, key)|
  {
    match ListOf(store, key)
    case Found(l) => Lists.Len(l)
    case _ => 0
  }

  /** Lindex: empty bytes for a missing key, an error for another type, else the list's entry (nil when out of range). */
  function Lindex(store: Store, key: Bytes, index: int): (r: Result<Option<Bytes>>)
    ensures ListOf(store, key).Missing? ==> r == Ok(Some([]))
    ensures ListOf(store, key).WrongType? ==> r == Fail(TypeNotMatchedErr)
    ensures ListOf(store, key).Found? ==> r == Ok(Lists.Lindex(ListOf(store, key).value, index))
  {
    match ListOf(store, key)
    case Missing => Ok(Some([]))
    case WrongType => Fail(TypeNotMatchedErr)
    case Found(l) => Ok(Lists.Lindex(l, index))
  }

  /** Linsert: 0 for a missing key, an error for another type, else the list's insert and its reply. */
  function Linsert(store: Store, key: Bytes, before: bool, pivot: Bytes, value: Bytes): (r: Step<Result<int>>)
    ensures !ListOf(store, key).Found? ==> r.store == store
    ensures ListOf(store, key).Missing? ==> r.out == Ok(0)
    ensures ListOf(store, key).WrongType? ==> r.out == Fail(TypeNotMatchedErr)
    ensures ListOf(store, key).Found? ==>
              var ins := Lists.Linsert(ListOf(store, key).value, pivot, value, before);
              r.out == Ok(ins.reply) && r.store == PutList(store, key, ins.list)
    ensures Valid(store) ==> Valid(r.store)
  {
    match ListOf(store, key)
    case Missing => Step(store, Ok(0))
    case WrongType => Step(store, Fail(TypeNotMatchedErr))
    case Found(l) =>
      var ins := Lists.Linsert(l, pivot, value, before);
      Step(PutList(store, key, ins.list), Ok(ins.reply))
  }

  /** Lrem: 0 for a missing key, an error for another type, else the list's removal; it panics where the list's unlink does. */
  function Lrem(store: Store, key: Bytes, count: int, value: Bytes): (r: Outcome<Step<Result<int>>>)
    ensures r.Panic? <==> ListOf(store, key).Found? && Lists.LremPanics(ListOf(store, key).value, count, value)
    ensures r.Normal? && !ListOf(store, key).Found? ==> r.value.store == store
    ensures r.Normal? && ListOf(store, key).Missing? ==> r.value.out == Ok(0)
    ensures r.Normal? && ListOf(store, key).WrongType? ==> r.value.out == Fail(TypeNotMatchedErr)
    ensures r.Normal? && ListOf(store, key).Found? ==>
              var rem := Lists.Lrem(ListOf(store, key).value, count, value);
              r.value.out == Ok(rem.removed) && r.value.store == PutList(store, key, rem.list)
    ensures r.Normal? && Valid(store) ==> Valid(r.value.store)
  {
    match ListOf(store, key)
    case Missing => Normal(Step(store, Ok(0)))
    case WrongType => Normal(Step(store, Fail(TypeNotMatchedErr)))
    case Found(l) =>
      if Lists.LremPanics(l, count, value) then Panic
      else
        var rem := Lists.Lrem(l, count, value);
        Normal(Step(PutList(store, key, rem.list), Ok(rem.removed)))
  }

  /** Ltrim: nothing for a missing key, an error for another type, else the list's trim. */
  function Ltrim(store: Store, key: Bytes, start: int, stop: int): (r: Outcome<Step<Option<Error>>>)
    ensures r.Panic? <==> ListOf(store, key).Found? && Lists.LtrimPanics(ListOf(store, key).value, start, stop)
    ensures r.Normal? && !ListOf(store, key).Found? ==> r.value.store == store
    ensures r.Normal? && ListOf(store, key).Missing? ==> r.value.out == None
    ensures r.Normal? && ListOf(store, key).WrongType? ==> r.value.out == Some(TypeNotMatchedErr)
    ensures r.Normal? && ListOf(store, key).Found? ==>
              r.value.out == None &&
              r.value.store == PutList(store, key, Lists.Ltrim(ListOf(store, key).value, start, stop))
    ensures r.Normal? && Valid(store) ==> Valid(r.value.store)
  {
    match ListOf(store, key)
    case Missing => Normal(Step(store, None))
    case WrongType => Normal(Step(store, Some(TypeNotMatchedErr)))
    case Found(l) =>
      if Lists.LtrimPanics(l, start, stop) then Panic
      else Normal(Step(PutList(store, key, Lists.Ltrim(l, start, stop)), None))
  }

  /** Lset: "key not exist" for a missing key, an error for another type, else the list's set. */
  function Lset(store: Store, key: Bytes, index: int, value: Bytes): (r: Step<Option<Error>>)
    ensures r.out.Some? ==> r.store == store
    ensures ListOf(store, key).Missing? ==> r.out == Some(KeyNotExistErr)
    ensures ListOf(store, key).WrongType? ==> r.out == Some(TypeNotMatchedErr)
    ensures ListOf(store, key).Found? ==>
              match Lists.Lset(ListOf(store, key).value, index, value)
              case Fail(e) => r.out == Some(e)
              case Ok(l) => r.out == None && r.store == PutList(store, key, l)
    ensures Valid(store) ==> Valid(r.store)
  {
    match ListOf(store, key)
    case Missing => Step(store, Some(KeyNotExistErr))
    case WrongType => Step(store, Some(TypeNotMatchedErr))
    case Found(l) =>
      match Lists.Lset(l, index, value)
      case Fail(e) => Step(store, Some(e))
      case Ok(l2) => Step(PutList(store, key, l2), None)
  }

  /**
    Lpop(key, count): nil for a missing key, an error for another type,
    else the list's pop; a negative count panics in `make`.
   */
  function Lpop(store: Store, key: Bytes, count: int): (r: Outcome<Step<Result<seq<Option<Bytes>>>>>)
    ensures r.Panic? <==> ListOf(store, key).Found? && count < 0
    ensures r.Normal? && !ListOf(store, key).Found? ==> r.value.store == store
    ensures r.Normal? && ListOf(store, key).Missing? ==> r.value.out == Ok([])
    ensures r.Normal? && ListOf(store, key).WrongType? ==> r.value.out == Fail(TypeNotMatchedErr)
    ensures r.Normal? && ListOf(store, key).Found? ==>
              var p := Lists.Lpop(ListOf(store, key).value, count);
              r.value.out == Ok(p.values) && r.value.store == PutList(store, key, p.list)
    ensures r.Normal? && Valid(store) ==> Valid(r.value.store)
  {
    match ListOf(store, key)
    case Missing => Normal(Step(store, Ok([])))
    case WrongType => Normal(Step(store, Fail(TypeNotMatchedErr)))
    case Found(l) =>
      if count < 0 then Panic
      else
        var p := Lists.Lpop(l, count);
        Normal(Step(PutList(store, key, p.list), Ok(p.values)))
  }

  /** Rpop: the mirror image of Lpop. */
  function Rpop(store: Store, key: Bytes, count: int): (r: Outcome<Step<Result<seq<Option<Bytes>>>>>)
    ensures r.Panic? <==> ListOf(store, key).Found? && count < 0
    ensures r.Normal? && !ListOf(store, key).Found? ==> r.value.store == store
    ensures r.Normal? && ListOf(store, key).Missing? ==> r.value.out == Ok([])
    ensures r.Normal? && ListOf(store, key).WrongType? ==> r.value.out == Fail(TypeNotMatchedErr)
    ensures r.Normal? && ListOf(store, key).Found? ==>
              var p := Lists.Rpop(ListOf(store, key).value, count);
              r.value.out == Ok(p.values) && r.value.store == PutList(store, key, p.list)
    ensures r.Normal? && Valid(store) ==> Valid(r.value.store)
  {
    match ListOf(store, key)
    case Missing => Normal(Step(store, Ok([])))
    case WrongType => Normal(Step(store, Fail(TypeNotMatchedErr)))
    case Found(l) =>
      if count < 0 then Panic
      else
        var p := Lists.Rpop(l, count);
        Normal(Step(PutList(store, key, p.list), Ok(p.values)))
  }

  // ---------------------------------------------------------------------
  // Sorted sets
  // ---------------------------------------------------------------------

  /** The members of `names` that `dict` does not hold yet. */
  function NewMembers(dict: map<Bytes, real>, names: seq<Bytes>): set<Bytes>
  {
    set m | m in names && m !in dict
  }

  /** The members of `names` that `dict` holds. */
  function OldMembers(dict: map<Bytes, real>, names: seq<Bytes>): set<Bytes>
  {
    set m | m in names && m in dict
  }

  predicate LevelsOk(levels: seq<int>)
  {
    forall i :: 0 <= i < |levels| ==> 1 <= levels[i] <= Skiplist.MaxLevel
  }

  datatype Adds = Adds(zset: SortedSets.SortedSet, added: nat)

  /**
    The scores a run of (name, score) pairs leaves: a name holds the score
    of its last pair, and a member no pair names keeps its old score.
   */
  predicate AddedScores(before: map<Bytes, real>, after: map<Bytes, real>, names: seq<Bytes>, scores: seq<real>)
  {
    && (forall m :: m in before && m !in names ==> m in after && after[m] == before[m])
    && (forall i :: 0 <= i < |names| && i < |scores| && names[i] !in names[i + 1..] ==>
          names[i] in after && after[names[i]] == scores[i])
  }

  /**
    Zadd's loop: add each (name, score) pair in turn, counting the names
    that were new. A name given twice keeps its last score.
   */
  function AddAll(ss: SortedSets.SortedSet, names: seq<Bytes>, scores: seq<real>, levels: seq<int>): (r: Adds)
    requires SortedSets.Valid(ss)
    requires |scores| == |names| == |levels| && LevelsOk(levels)
    ensures SortedSets.Valid(r.zset)
    ensures r.added == |NewMembers(ss.dict, names)|
    ensures forall m :: m in r.zset.dict <==> m in ss.dict || m in names
    ensures forall m :: m in ss.dict && m !in names ==> r.zset.dict[m] == ss.dict[m]
    ensures forall i :: 0 <= i < |names| && names[i] !in names[i + 1..] ==> r.zset.dict[names[i]] == scores[i]
    decreases |names|
  {
    if |names| == 0 then Adds(ss, 0)
    else
      var a := SortedSets.Add(ss, names[0], scores[0], levels[0]);
      assert LevelsOk(levels[1..]) by {
        forall i | 0 <= i < |levels| - 1 ensures 1 <= levels[1..][i] <= Skiplist.MaxLevel {
          assert levels[1..][i] == levels[i + 1];
        }
      }
      var rest := AddAll(a.zset, names[1..], scores[1..], levels[1..]);
      var added := rest.added + if a.added then 1 else 0;
      AddAllCombine(ss.dict, a.zset.dict, rest.zset.dict, names, scores, a.added, rest.added);
      Adds(rest.zset, added)
  }

  /** One Add followed by the rest of the loop gives the loop's contract for all the names. */
  lemma AddAllCombine(dict: map<Bytes, real>, mid: map<Bytes, real>, fin: map<Bytes, real>,
                      names: seq<Bytes>, scores: seq<real>, first: bool, restAdded: nat)
    requires |names| > 0 && |scores| == |names|
    requires mid == dict[names[0] := scores[0]] && (first <==> names[0] !in dict)
    requires restAdded == |NewMembers(mid, names[1..])|
    requires forall m :: m in fin <==> m in mid || m in names[1..]
    requires forall m :: m in mid && m !in names[1..] ==> fin[m] == mid[m]
    requires forall i :: 0 <= i < |names| - 1 && names[1..][i] !in names[1..][i + 1..] ==> fin[names[1..][i]] == scores[1..][i]
    ensures restAdded + (if first then 1 else 0) == |NewMembers(dict, names)|
    ensures forall m :: m in fin <==> m in dict || m in names
    ensures forall m :: m in dict && m !in names ==> fin[m] == dict[m]
    ensures forall i :: 0 <= i < |names| && names[i] !in names[i + 1..] ==> fin[names[i]] == scores[i]
  {
    AddAllStep(dict, mid, names, scores[0]);
    AddAllLast(dict, mid, fin, names, scores);
  }

  /** The new members of the names split into the first name and the rest. */
  lemma AddAllStep(dict: map<Bytes, real>, next: map<Bytes, real>, names: seq<Bytes>, score: real)
    requires |names| > 0 && next == dict[names[0] := score]
    ensures names[0] !in dict ==> NewMembers(dict, names) == NewMembers(next, names[1..]) + {names[0]}
    ensures names[0] !in dict ==> names[0] !in NewMembers(next, names[1..])
    ensures names[0] in dict ==> NewMembers(dict, names) == NewMembers(next, names[1..])
  {
    forall m ensures m in names <==> m == names[0] || m in names[1..] {
      if m in names {
        var i :| 0 <= i < |names| && names[i] == m;
        if i > 0 { assert names[1..][i - 1] == m; }
      }
    }
  }

  /** The last score given for each name is the one the rest of the loop leaves. */
  lemma AddAllLast(dict: map<Bytes, real>, mid: map<Bytes, real>, fin: map<Bytes, real>, names: seq<Bytes>, scores: seq<real>)
    requires |names| > 0 && |scores| == |names|
    requires mid == dict[names[0] := scores[0]]
    requires forall m :: m in fin <==> m in mid || m in names[1..]
    requires forall m :: m in mid && m !in names[1..] ==> fin[m] == mid[m]
    requires forall i :: 0 <= i < |names| - 1 && names[1..][i] !in names[1..][i + 1..] ==> fin[names[1..][i]] == scores[1..][i]
    ensures forall m :: m in fin <==> m in dict || m in names
    ensures forall m :: m in dict && m !in names ==> fin[m] == dict[m]
    ensures forall i :: 0 <= i < |names| && names[i] !in names[i + 1..] ==> fin[names[i]] == scores[i]
  {
    forall m ensures m in names <==> m == names[0] || m in names[1..] {
      if m in names {
        var i :| 0 <= i < |names| && names[i] == m;
        if i > 0 { assert names[1..][i - 1] == m; }
      }
    }
    forall i | 0 <= i < |names| && names[i] !in names[i + 1..] ensures fin[names[i]] == scores[i] {
      if i > 0 {
        assert names[1..][i - 1] == names[i];
        assert names[1..][i - 1 + 1..] == names[i + 1..];
      } else {
        assert names[1..] == names[i + 1..];
      }
    }
  }

  /**
    Zadd(scores, names): a missing key gets a new sorted set (kept even if
    nothing is added); another type gives an error; otherwise each pair is
    added and the reply counts the new members. `levels` are the random node
    levels the insertions draw. Fewer scores than names indexes past the
    scores and panics.
   */
  function Zadd(store: Store, key: Bytes, scores: seq<real>, names: seq<Bytes>, levels: seq<int>): (r: Outcome<Step<Result<int>>>)
    requires Valid(store)
    requires |levels| == |names| && LevelsOk(levels)
    ensures r.Panic? <==> !ZSetOf(store, key).WrongType? && |scores| < |names|
    ensures ZSetOf(store, key).WrongType? ==> r == Normal(Step(store, Fail(TypeNotMatchedErr)))
    ensures r.Normal? && !ZSetOf(store, key).WrongType? ==>
              var before := if key in store then store[key].data.zset.dict else map[];
              && ZSetOf(r.value.store, key).Found?
              && r.value.out == Ok(|NewMembers(before, names)|)
              && (forall m :: m in ZSetOf(r.value.store, key).value.dict <==> m in before || m in names)
              && AddedScores(before, ZSetOf(r.value.store, key).value.dict, names, scores)
              && r.value.store[key].deadline == KeptDeadline(store, key)
              && Elsewhere(r.value.store, store, key)
    ensures r.Normal? ==> Valid(r.value.store)
  {
    match ZSetOf(store, key)
    case WrongType => Normal(Step(store, Fail(TypeNotMatchedErr)))
    case Missing =>
      if |scores| < |names| then Panic
      else
        var adds := AddAll(SortedSets.Make(), names, scores[..|names|], levels);
        Normal(Step(PutZSet(store, key, adds.zset), Ok(adds.added)))
    case Found(z) =>
      if |scores| < |names| then Panic
      else
        var adds := AddAll(z, names, scores[..|names|], levels);
        Normal(Step(PutZSet(store, key, adds.zset), Ok(adds.added)))
  }

  /**
    The reply rows of Zrange and ZrangeByScore: each member, followed by its
    score formatted with `%v` when scores are asked for. Go's `%v` float
    formatting is the parameter `format`.
   */
  function Rows(elems: seq<Element>, withScore: bool, format: real -> Bytes): (r: seq<Bytes>)
    ensures |r| == if withScore then 2 * |elems| else |elems|
    ensures !withScore ==> forall i :: 0 <= i < |elems| ==> r[i] == elems[i].member
    ensures withScore ==> forall i :: 0 <= i < |elems| ==> r[2 * i] == elems[i].member && r[2 * i + 1] == format(elems[i].score)
  {
    if |elems| == 0 then []
    else
      var rest := Rows(elems[1..], withScore, format);
      var head := if withScore then [elems[0].member, format(elems[0].score)] else [elems[0].member];
      assert forall i :: 0 < i < |elems| ==> elems[1..][i - 1] == elems[i];
      head + rest
  }

  /** Zrange: no rows for a missing key, an error for another type, else the rank window's rows. */
  function Zrange(store: Store, key: Bytes, start: int, stop: int, desc: bool, withScore: bool, format: real -> Bytes): (r: Result<seq<Bytes>>)
    requires Valid(store)
    ensures ZSetOf(store, key).Missing? ==> r == Ok([])
    ensures ZSetOf(store, key).WrongType? ==> r == Fail(TypeNotMatchedErr)
    ensures ZSetOf(store, key).Found? ==>
              r == Ok(Rows(SortedSets.Range(ZSetOf(store, key).value, start, stop, desc), withScore, format))
  {
    match ZSetOf(store, key)
    case Missing => Ok([])
    case WrongType => Fail(TypeNotMatchedErr)
    case Found(z) => Ok(Rows(SortedSets.Range(z, start, stop, desc), withScore, format))
  }

  /** ZrangeByScore: no rows for a missing key, an error for another type, else the rows of the score walk. */
  function ZrangeByScore(store: Store, key: Bytes, min: ScoreBorder, max: ScoreBorder, withScore: bool, desc: bool,
                         offset: int, count: int, format: real -> Bytes): (r: Result<seq<Bytes>>)
    requires Valid(store)
    ensures ZSetOf(store, key).Missing? ==> r == Ok([])
    ensures ZSetOf(store, key).WrongType? ==> r == Fail(TypeNotMatchedErr)
    ensures ZSetOf(store, key).Found? ==>
              r == Ok(Rows(SortedSets.RangeByScore(ZSetOf(store, key).value, min, max, offset, count, desc), withScore, format))
  {
    match ZSetOf(store, key)
    case Missing => Ok([])
    case WrongType => Fail(TypeNotMatchedErr)
    case Found(z) => Ok(Rows(SortedSets.RangeByScore(z, min, max, offset, count, desc), withScore, format))
  }

  /** Zcard: the number of members; 0 for a missing key, an error for another type. */
  function Zcard(store: Store, key: Bytes): (r: Result<int>)
    requires Valid(store)
    ensures ZSetOf(store, key).Missing? ==> r == Ok(0)
    ensures ZSetOf(store, key).WrongType? ==> r == Fail(TypeNotMatchedErr)
    ensures ZSetOf(store, key).Found? ==> r == Ok(|ZSetOf(store, key).value.sl.elems|)
  {
    match ZSetOf(store, key)
    case Missing => Ok(0)
    case WrongType => Fail(TypeNotMatchedErr)
    case Found(z) => Ok(SortedSets.Len(z))
  }

  datatype Drops = Drops(zset: SortedSets.SortedSet, removed: nat)

  /** Zrem's loop: remove each name in turn, counting those that were present. */
  function RemoveAll(ss: SortedSets.SortedSet, names: seq<Bytes>): (r: Drops)
    requires SortedSets.Valid(ss)
    ensures SortedSets.Valid(r.zset)
    ensures r.removed == |OldMembers(ss.dict, names)|
    ensures r.zset.dict == ss.dict - (set m | m in names)
    decreases |names|
  {
    if |names| == 0 then
      assert ss.dict - (set m | m in names) == ss.dict;
      Drops(ss, 0)
    else
      var d := SortedSets.Remove(ss, names[0]);
      var rest := RemoveAll(d.zset, names[1..]);
      RemoveAllStep(ss.dict, names);
      Drops(rest.zset, rest.removed + if d.removed then 1 else 0)
  }

  lemma RemoveAllStep(dict: map<Bytes, real>, names: seq<Bytes>)
    requires |names| > 0
    ensures names[0] in dict ==> OldMembers(dict, names) == OldMembers(dict - {names[0]}, names[1..]) + {names[0]}
    ensures names[0] in dict ==> names[0] !in OldMembers(dict - {names[0]}, names[1..])
    ensures names[0] !in dict ==> OldMembers(dict, names) == OldMembers(dict - {names[0]}, names[1..])
    ensures (dict - {names[0]}) - (set m | m in names[1..]) == dict - (set m | m in names)
  {
    forall m ensures m in names <==> m == names[0] || m in names[1..] {
      if m in names {
        var i :| 0 <= i < |names| && names[i] == m;
        if i > 0 { assert names[1..][i - 1] == m; }
      }
    }
  }

  /** Zrem: 0 for a missing key, an error for another type, else the number of names removed. */
  function Zrem(store: Store, key: Bytes, names: seq<Bytes>): (r: Step<Result<int>>)
    requires Valid(store)
    ensures !ZSetOf(store, key).Found? ==> r.store == store
    ensures ZSetOf(store, key).Missing? ==> r.out == Ok(0)
    ensures ZSetOf(store, key).WrongType? ==> r.out == Fail(TypeNotMatchedErr)
    ensures ZSetOf(store, key).Found? ==>
              var z := ZSetOf(store, key).value;
              && r.out == Ok(|OldMembers(z.dict, names)|)
              && ZSetOf(r.store, key).Found?
              && ZSetOf(r.store, key).value.dict == z.dict - (set m | m in names)
              && Elsewhere(r.store, store, key)
    ensures Valid(r.store)
  {
    match ZSetOf(store, key)
    case Missing => Step(store, Ok(0))
    case WrongType => Step(store, Fail(TypeNotMatchedErr))
    case Found(z) =>
      var d := RemoveAll(z, names);
      Step(PutZSet(store, key, d.zset), Ok(d.removed))
  }

  /**
    Zcount(min, max): 0 for a missing key, an error for another type or a
    border that is not a float, else the number of members in range. An
    empty border string is indexed at 0 and a count over an empty set walks
    past its end; both panic.
   */
  function Zcount(store: Store, key: Bytes, min: Bytes, max: Bytes): (r: Outcome<Result<int>>)
    requires Valid(store)
    ensures ZSetOf(store, key).Missing? ==> r == Normal(Ok(0))
    ensures ZSetOf(store, key).WrongType? ==> r == Normal(Fail(TypeNotMatchedErr))
    ensures ZSetOf(store, key).Found? && |min| == 0 ==> r.Panic?
    ensures ZSetOf(store, key).Found? && |min| > 0 && ParseScoreBorder(min).Fail? ==> r == Normal(Fail(Msg(NotFloatErr)))
    ensures ZSetOf(store, key).Found? && |min| > 0 && ParseScoreBorder(min).Ok? ==>
              if |max| == 0 then r.Panic?
              else if ParseScoreBorder(max).Fail? then r == Normal(Fail(Msg(NotFloatErr)))
              else if |ZSetOf(store, key).value.sl.elems| == 0 then r.Panic?
              else r == Normal(Ok(|SortedSets.Select(ZSetOf(store, key).value.sl.elems,
                                    ParseScoreBorder(min).value, ParseScoreBorder(max).value, true)|))
  {
    match ZSetOf(store, key)
    case Missing => Normal(Ok(0))
    case WrongType => Normal(Fail(TypeNotMatchedErr))
    case Found(z) =>
      if |min| == 0 then Panic
      else match ParseScoreBorder(min)
        case Fail(e) => Normal(Fail(e))
        case Ok(lo) =>
          if |max| == 0 then Panic
          else match ParseScoreBorder(max)
            case Fail(e) => Normal(Fail(e))
            case Ok(hi) =>
              if |z.sl.elems| == 0 then Panic
              else Normal(Ok(SortedSets.Count(z, lo, hi)))
  }

  /**
    Zrank(name, desc): 0 for a missing key, an error for another type, else
    the member's 0-based rank from the low or high end, or -1 if absent.
    Under getRank's header quirk (SortedSets.RankShadowed) a present member
    "" reads -1, or the length when `desc`.
   */
  function Zrank(store: Store, key: Bytes, name: Bytes, desc: bool): (r: Result<int>)
    requires Valid(store)
    ensures ZSetOf(store, key).Missing? ==> r == Ok(0)
    ensures ZSetOf(store, key).WrongType? ==> r == Fail(TypeNotMatchedErr)
    ensures ZSetOf(store, key).Found? ==>
              var z := ZSetOf(store, key).value;
              && r.Ok?
              && (r.value == -1 <==> name !in z.dict || (SortedSets.RankShadowed(z, name) && !desc))
              && (name in z.dict && !SortedSets.RankShadowed(z, name) ==>
                    0 <= r.value < |z.sl.elems| &&
                    SortedSets.Ordered(z.sl.elems, desc)[r.value] == Element(name, z.dict[name]))
              && (name in z.dict && SortedSets.RankShadowed(z, name) ==>
                    r.value == if desc then |z.sl.elems| else -1)
  {
    match ZSetOf(store, key)
    case Missing => Ok(0)
    case WrongType => Fail(TypeNotMatchedErr)
    case Found(z) => Ok(SortedSets.GetRank(z, name, desc))
  }

  // ---------------------------------------------------------------------
  // Properties across operations
  // ---------------------------------------------------------------------

  /** A string just set reads back, whatever the clock says. */
  lemma SetThenGet(store: Store, key: Bytes, value: Bytes, now: int)
    ensures Get(Set(store, key, value), key, now) == Fetched(Some(value), true, None)
  {
  }

  /** Setting or deleting one key does not change what another key reads. */
  lemma SetDelElsewhere(store: Store, key: Bytes, other: Bytes, value: Bytes, now: int)
    requires other != key
    ensures Get(Set(store, key, value), other, now) == Get(store, other, now)
    ensures Get(Del(store, key), other, now) == Get(store, other, now)
  {
    assert other in Set(store, key, value) <==> other in store;
    assert other in Del(store, key) <==> other in store;
  }

  /** After Del the key reads as missing. */
  lemma DelThenGet(store: Store, key: Bytes, now: int)
    ensures Get(Del(store, key), key, now) == Fetched(None, false, Some(KeyNotExistsErr))
  {
  }

  /** A key whose TTL was just set to a non-negative number of seconds is still live. */
  lemma SetTTLKeepsLive(store: Store, key: Bytes, second: int, now: int)
    requires key in store && 0 <= second <= Numbers.INT64_MAX / NANOS_PER_SECOND
    ensures SetTTL(store, key, second, now).Normal?
    ensures Get(SetTTL(store, key, second, now).value, key, now).exist
    ensures GetLeftLife(SetTTL(store, key, second, now).value, key, now) == second
  {
    SetTTLLeftLife(store[key], second, now);
  }

  /** Persist after SetDeadLine drops the TTL: the key reports -1 and never expires. */
  lemma PersistAfterDeadline(store: Store, key: Bytes, deadline: int, now: int)
    requires key in store
    ensures var s := SetDeadLine(store, key, deadline).value;
            var p := Persist(s, key);
            p.Normal? && p.value.out == 1 && GetLeftLife(p.value.store, key, now) == -1 &&
            !Expired(p.value.store[key], now)
  {
  }

  /** Pushing onto a missing key and reading the whole list back gives the pushed values. */
  lemma RpushThenLrange(store: Store, key: Bytes, values: seq<Bytes>)
    requires key !in store && |values| > 0
    ensures Lrange(Rpush(store, key, values).store, key, 0, -1) == Ok(values)
  {
    var l := ListOf(Rpush(store, key, values).store, key).value;
    assert l.items == values;
    Lists.LrangeWhole(l);
  }
}
