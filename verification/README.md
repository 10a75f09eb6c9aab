# kv_storage core, modelled in Dafny

kv_storage is a small Redis-like key-value server written in Go. This
project models its sequential core as immutable data and pure functions,
and proves properties of what the code does. Where the code departs from
what it evidently means, the model follows the code, and "## Findings"
pairs each such place with a corrected definition. The core covers:

- the byte-string list behind `lpush`/`lrange`/`lrem`/... (`Lists`);
- the score borders (`Border`), the `(score, member)` order (`ZOrder`),
  the span-carrying skiplist (`Skiplist`, `SkiplistOps`) and the sorted
  set that keeps a member dictionary in step with it (`SortedSets`);
- the value with its optional deadline (`Values`) and the keyspace map
  with its type checks and lazy expiry (`Keyspace`);
- the RESP decoder: its read state, line reader, header/body/single-line
  parsers, the `Parse0` loop and `ParseSingleReply` (`Resp`);
- the argument checkers of the command layer (`CommandArgs`) and
  `Execute`'s dispatch (`Executer`);
- the consistent-hash ring with hash tags (`HashRing`);
- the one pure step of the append-only file, `expire` → `expireat` (`Aof`).

Modelling choices:

- Bytes are `seq<char>`, one character per byte. A Go `nil` slice is
  `Option.None`.
- Time is an `int` number of nanoseconds since the Unix epoch. It is
  passed in as `now`.
- Scores are `real`s.
- Integer parsing and formatting (`strconv.Atoi`, `ParseInt`, `ParseUint`,
  `Itoa`) are modelled exactly, int64 range included. Go's int64
  wrap-around is written out as `Numbers.Wrap64` where the code can wrap,
  including the seconds-since-year-1 sum inside `time.Unix`
  (`Values.UnixInstant`).
- A Go runtime panic becomes one of two things:
  - a precondition at the data-structure level, paired with a predicate
    that says exactly when it happens (`Lists.LremPanics`,
    `Lists.LtrimPanics`);
  - an explicit `Panic` outcome at the keyspace and command level, since
    the server does not recover from it.
- The random skiplist level, Go's map iteration order, `%v` float
  formatting and the ring's hash function are parameters.
- Where the code does not do what it evidently means (see "## Findings"),
  the operations follow the code as written: the score-range lookup keeps
  hasInRange's test on the borders' `Value`, `zrank` keeps getRank's
  header match, `zrangebyscore` without LIMIT keeps a count of 0, and
  `PickNode` keeps getPartitionKey's panic. Each finding also has a
  corrected definition with the intended property proved of it
  (`SkiplistOps.HasInRange`, `SkiplistOps.GetRank`,
  `CommandArgs.PreZrankByScore`, `HashRing.PartitionKey`); these serve as
  reference definitions and no command goes through them.

## Model

| member | source | states |
|---|---|---|
| Lists.Lpush | datastruct/list/list.go:20-24 | each value is pushed at the head in turn, so the list becomes the values reversed followed by the old list, and its length grows by their number |
| Lists.Rpush | datastruct/list/list.go:26-30 | the values are appended at the tail in order, and the length grows by their number |
| Lists.CheckBorder | datastruct/list/list.go:211-234 | on success the window satisfies 0 <= start <= stop <= length-1 and holds exactly the indices whose normalised value lies in [start, stop]; it fails with "no elements" otherwise; on an empty list it yields (0, -1) |
| Lists.CheckBorderFailsIffEmpty | datastruct/list/list.go:211-234 | on a non-empty list checkborder fails exactly when start > stop, stop < 0 or start > length-1 after normalisation |
| Lists.Lrange | datastruct/list/list.go:58-79 | the elements whose normalised index lies in [start, stop], clamped to the list, in order; nothing when checkborder fails; the list is not changed |
| Lists.Lindex | datastruct/list/list.go:81-100 | an index inside the list (counted from the tail when negative) yields an entry, any other yields nil; a non-negative index yields that element, but a valid negative index yields the head |
| Lists.LrangeWhole | datastruct/list/list.go:58-79 | Lrange(0, -1) is the whole list |
| Lists.LrangeLindex | datastruct/list/list.go:58-90 | for a non-negative index inside the list, the one-element Lrange agrees with Lindex |
| Lists.LindexNegativeDisagrees | datastruct/list/list.go:81-90 | for index -1 Lrange reads the last element while Lindex reads the first |
| Lists.Linsert | datastruct/list/list.go:102-143 | 0 on an empty list; -1 and no change when the pivot is absent; otherwise the value is placed right before or after the first occurrence of the pivot, everything else stays in order, and the new length is returned |
| Lists.Lrem | datastruct/list/list.go:145-191 | count > 0 removes the first count occurrences, count < 0 the last \|count\|, count == 0 all; it returns how many went, the length drops by that many; for count >= 0 the removed ones are all the occurrences in some prefix and the rest of the list is untouched, for count < 0 those in some suffix |
| Lists.LremPanicsIff | datastruct/list/list.go:145-161 | the sole-node unlink panics exactly when every element equals the value and the count reaches all of them |
| Lists.DropLastMirror | datastruct/list/list.go:176-189 | removal from the tail is removal from the head of the reversed list |
| Lists.Ltrim | datastruct/list/list.go:315-337 | an invalid window empties the list; a valid one keeps exactly the normalised slice, of length stop-start+1 |
| Lists.Lset | datastruct/list/list.go:236-249 | an index outside the list (after normalising a negative one) gives "index outside" with no change; otherwise exactly that element is replaced and the length is unchanged |
| Lists.LsetLrange | datastruct/list/list.go:236-249 | reading back the written position through Lrange gives the new value |
| Lists.Lpop | datastruct/list/list.go:251-299 | min(count, length) entries come from the head in order and the list loses exactly them; the entry for the last remaining node is nil |
| Lists.Rpop | datastruct/list/list.go:269-313 | the mirror image of Lpop, from the tail |
| Lists.LpushLpop | datastruct/list/list.go:287-299 | pushing values at the head of a non-empty list and popping as many gives them back reversed, and restores the list |
| Lists.RpushRpop | datastruct/list/list.go:301-313 | pushing values at the tail of a non-empty list and popping as many from the tail gives them back reversed, and restores the list |
| Border.BorderMeaning | datastruct/sortedset/border.go:30-52 | greater: -inf never, +inf always, exclusive Value > v, inclusive Value >= v; less: -inf always, +inf never, exclusive Value < v, inclusive Value <= v |
| Border.BothSides | datastruct/sortedset/border.go:30-52 | for a finite border, less(v) and greater(v) hold together exactly when the border is inclusive and v is its value |
| Border.BorderMonotone | datastruct/sortedset/border.go:30-52 | a min border's test is upward closed in v and a max border's downward closed |
| Border.ParseScoreBorder | datastruct/sortedset/border.go:54-81 | "inf" and "+inf" are +inf, "-inf" is -inf, "(x" is exclusive at x, "x" inclusive at x; a non-float gives "ERR min or max is not a float" |
| Border.ParseScoreBorderInt | datastruct/sortedset/border.go:54-81 | a border written as a decimal integer parses back to that integer, exclusive exactly when prefixed by '(' |
| ZOrder.ElemLessOrder | datastruct/sortedset/skiplist.go:83-84 | the `(score, member)` comparison the skiplist uses is a strict total order |
| ZOrder.SortedDistinct | datastruct/sortedset/skiplist.go:83-84 | in a sequence ascending under that order an element occurs once |
| ZOrder.SortedPositions | datastruct/sortedset/skiplist.go:83-84 | in such a sequence one element is below another exactly when its position is |
| Skiplist.EmptyValid | datastruct/sortedset/skiplist.go:40-59 | makeSkiplist: level 1, no nodes, and the span invariant holds |
| Skiplist.SearchStops | datastruct/sortedset/skiplist.go:71-89 | on a valid skiplist the search stops, on every level, at the last node up to the probe's bound that reaches that level, with its base-level rank as the summed spans |
| Skiplist.SearchBase | datastruct/sortedset/skiplist.go:71-89 | on level 0 the search stops at the last node the probe holds on |
| Skiplist.ProbeMonotone | datastruct/sortedset/skiplist.go:83-84 | every comparison the searches use holds on a prefix of the base level |
| SkiplistOps.Insert | datastruct/sortedset/skiplist.go:67-135 | the element is linked in at its sorted place; the level is raised to the new node's height when taller; the length grows by one |
| SkiplistOps.InsertValid | datastruct/sortedset/skiplist.go:97-119 | insert keeps the skiplist invariant: heights in range, `level` the tallest height (at least 1), every span equal to the rank difference it covers |
| SkiplistOps.InsertSorted | datastruct/sortedset/skiplist.go:67-135 | the base level stays strictly ascending by `(score, member)`, and holds the old elements plus the new one |
| SkiplistOps.RemoveNode | datastruct/sortedset/skiplist.go:141-163 | unlinking a node keeps the invariant, removes exactly that element, and lowers `level` past empty top levels, never below 1 |
| SkiplistOps.Remove | datastruct/sortedset/skiplist.go:165-183 | true and the element unlinked exactly when an element with that member and score is present; otherwise nothing changes |
| SkiplistOps.GetRankAsWritten | datastruct/sortedset/skiplist.go:186-203 | getRank as written, whose member test also matches the header's empty member: 0 or the position of an element with that member |
| SkiplistOps.GetRankAsWrittenFinds | datastruct/sortedset/skiplist.go:186-203 | as written, a present element's rank is its 1-based position, except 0 for the member "" when no node up to it reaches the top level |
| SkiplistOps.GetRankAsWrittenPlain | datastruct/sortedset/skiplist.go:186-203 | away from that case (a member other than "", or a top-level node up to it) the as-written rank is the position |
| SkiplistOps.GetRank | datastruct/sortedset/skiplist.go:186-203 | getRank with the header excluded from the member test |
| SkiplistOps.GetRankFinds | datastruct/sortedset/skiplist.go:186-203 | the rank of a present element is its 1-based base-level position |
| SkiplistOps.GetRankAbsent | datastruct/sortedset/skiplist.go:186-203 | an absent element gets rank 0 |
| SkiplistOps.GetRankHeaderQuirk | datastruct/sortedset/skiplist.go:186-203 | as written, member "" at a position no top-level node precedes reads rank 0 instead of its position |
| SkiplistOps.GetRankHeaderExample | datastruct/sortedset/skiplist.go:186-203 | on a valid skiplist holding ("", 1) of height 1 before ("b", 2) of height 2, the as-written rank of "" is 0 and the corrected one is 1 |
| SkiplistOps.GetByRank | datastruct/sortedset/skiplist.go:206-219 | rank r in 1..length finds the node at position r, rank 0 the header, a larger rank nil |
| SkiplistOps.HasInRangeNecessary | datastruct/sortedset/skiplist.go:222-237 | the corrected hasInRange never rules out a range that holds an element |
| SkiplistOps.HasInRangeAsWrittenMisses | datastruct/sortedset/skiplist.go:222-237 | as written, hasInRange rules out [-inf, -5] on a list whose scores include -10 |
| SkiplistOps.HasInRangeAsWrittenExample | datastruct/sortedset/skiplist.go:222-237 | that list is reachable, by inserting ("a", -10) into the empty skiplist |
| SkiplistOps.GetFirstInScoreRange | datastruct/sortedset/skiplist.go:240-255 | the smallest element with min.less(score) and max.greater(score), or nil when none qualifies; always nil for borders that hasInRange's `Value` test rules out (min.Value > max.Value, or equal Values with an exclusive border), even when an element lies within them |
| SkiplistOps.GetLastInScoreRange | datastruct/sortedset/skiplist.go:258-273 | the largest element within both borders, or nil when none qualifies; always nil for the borders hasInRange's `Value` test rules out |
| SkiplistOps.RemoveRangeByScore | datastruct/sortedset/skiplist.go:276-309 | removes, in ascending order, the run of elements from the first with min.less while max.greater holds, at most `limit` when limit > 0; returns them in order; the invariant is kept |
| SkiplistOps.RemoveRangeByRank | datastruct/sortedset/skiplist.go:312-340 | removes exactly the 1-based ranks start..stop-1, returns them in order, and keeps the invariant |
| SortedSets.Make | datastruct/sortedset/sortedset.go:12-17 | an empty, valid sorted set |
| SortedSets.Len | datastruct/sortedset/sortedset.go:37-39 | the dict's size equals the number of skiplist elements |
| SortedSets.Get | datastruct/sortedset/sortedset.go:41-47 | the element of a member when the dict holds it, and it lies in the skiplist; nil otherwise |
| SortedSets.Add | datastruct/sortedset/sortedset.go:20-35 | true exactly when the member was absent; afterwards its dict score is the given one and it occurs exactly once in the skiplist with that score; other members keep their scores; the set stays valid |
| SortedSets.Remove | datastruct/sortedset/sortedset.go:49-57 | true exactly when the member was present; it leaves both the dict and the skiplist, the rest stays |
| SortedSets.GetRank | datastruct/sortedset/sortedset.go:60-72 | -1 for an absent member; otherwise its 0-based rank from the low end, or from the high end when desc; but for the member "" with no top-level node up to it, getRank's 0 reads as -1, or as the length when desc |
| SortedSets.ForEach | datastruct/sortedset/sortedset.go:77-111 | the walk from the start node along forward or backward links returns up to stop-start+1 consecutive elements in walking order |
| SortedSets.Range | datastruct/sortedset/sortedset.go:115-141 | ranks start..stop, negative ranks counted from the end, clamped to the set; nil when nothing remains |
| SortedSets.RangeAll | datastruct/sortedset/sortedset.go:115-141 | Range(0, -1) is every element, ascending or descending |
| SortedSets.RangeExact | datastruct/sortedset/sortedset.go:115-141 | ranks inside the set select exactly the slice start..stop, stop-start+1 elements |
| SortedSets.Count | datastruct/sortedset/sortedset.go:144-163 | the number of elements whose score lies within both borders; needs a non-empty set |
| SortedSets.ForEachByScore | datastruct/sortedset/sortedset.go:167-204 | nothing for borders that hasInRange's `Value` test rules out; otherwise starts at the first (last when desc) element within the borders, skips offset nodes, then takes up to limit nodes while they stay within the borders |
| SortedSets.RangeByScore | datastruct/sortedset/sortedset.go:207-217 | empty for limit 0, a negative offset, or borders that hasInRange's `Value` test rules out; otherwise the elements ForEachByScore visits |
| SortedSets.RangeByScoreAll | datastruct/sortedset/sortedset.go:167-217 | with offset 0 and no limit, exactly the elements within the borders, in walk order, unless hasInRange's `Value` test rules the borders out, when it is empty |
| SortedSets.RangeByScoreStray | datastruct/sortedset/sortedset.go:176-187 | an offset past the run returns the node it lands on although it lies outside the borders |
| SortedSets.RangeByScoreBorderQuirk | datastruct/sortedset/sortedset.go:167-217 | the borders `5 +inf` over a member scored 10 visit nothing, although 10 lies within them |
| SortedSets.RemoveByScore | datastruct/sortedset/sortedset.go:220-226 | every element within the borders leaves the skiplist and the dict, all others stay; the count of removed elements is returned |
| SortedSets.RemoveByRank | datastruct/sortedset/sortedset.go:229-235 | the elements of 0-based rank in [start, stop) leave both structures, the rest stays and the set stays valid |
| SortedSets.RemoveByRankWraps | datastruct/sortedset/sortedset.go:229-235 | start = INT64_MAX wraps `start + 1` to INT64_MIN, so the removal starts at the first element |
| Values.NewValue | entity/value.go:13-38 | a new value has no TTL, so it has no life and is never expired |
| Values.SetTTL | entity/value.go:28-30 | the deadline becomes now + d, replacing any previous TTL |
| Values.SetDeadLine | entity/value.go:32-34 | the deadline becomes t, replacing any previous TTL |
| Values.UnixInstant | executer/executer.go:150 | `time.Unix(sec, 0)` is sec seconds after the epoch while sec + 62135596800 (seconds since year 1) fits in an int64; above that the sum wraps and the instant lies 2^64 seconds earlier, before year 1 |
| Values.Persist | entity/value.go:44-46 | the TTL is dropped, so the value has no life and never expires |
| Values.GetLeftLife | entity/value.go:40-42 | the whole seconds from now to the deadline, truncated toward zero |
| Values.ExpiredHasLife | entity/value.go:21-26 | a value can only be expired when a TTL is set |
| Values.ExpiredStays | entity/value.go:21-26 | once expired, a value stays expired as the clock advances |
| Values.SetTTLLeftLife | entity/value.go:28-42 | a TTL of n seconds read back at once reports n seconds left |
| Values.LeftLifeMonotone | entity/value.go:40-42 | the time left never grows as the clock advances |
| Values.PersistUndoes | entity/value.go:32-46 | setting a deadline and then persisting gives a value as if it never had a TTL |
| Keyspace.Set | datastore/map.go:29-33 | the key holds the bytes with no TTL; every other key is unchanged |
| Keyspace.Get | datastore/map.go:35-50 | missing: nil, not existing, "key not exist"; expired: nil, not existing, "key expired"; live non-string: nil, existing, "type not matched"; live string: its bytes, existing, no error |
| Keyspace.Del | datastore/map.go:52-56 | the key is gone and nothing else changes |
| Keyspace.Keys | datastore/map.go:58-69 | the keys of the map that have not expired, in the walk order |
| Keyspace.KeysListsLive | datastore/map.go:58-69 | over an order listing every key once, Keys lists each live key exactly once and nothing else |
| Keyspace.SetTTL | datastore/map.go:71-76 | the key's deadline becomes now plus the seconds, as an int64 Duration; its data stays; a missing key panics |
| Keyspace.SetDeadLine | datastore/map.go:78-83 | the key's deadline becomes t; its data stays; a missing key panics |
| Keyspace.GetLeftLife | datastore/map.go:85-96 | -2 for a missing key, -1 without a TTL, otherwise the value's seconds left |
| Keyspace.Persist | datastore/map.go:98-107 | 0 and no change without a TTL; otherwise the TTL is dropped and 1 returned; a missing key panics |
| Keyspace.Lpush | datastore/map.go:109-123 | a missing key gets a new list; another type gives -1 and no change; otherwise the values go on the head reversed and the reply is their number |
| Keyspace.Rpush | datastore/map.go:125-139 | as Lpush, appending at the tail in order |
| Keyspace.Lrange | datastore/map.go:141-153 | nothing for a missing key, the type error for another type, else the list's Lrange |
| Keyspace.Llen | datastore/map.go:155-167 | the list's length, 0 for a missing key or another type |
| Keyspace.Lindex | datastore/map.go:169-181 | empty bytes for a missing key, the type error for another type, else the list's Lindex |
| Keyspace.Linsert | datastore/map.go:183-195 | 0 for a missing key, the type error for another type, else the list's Linsert and its reply |
| Keyspace.Lrem | datastore/map.go:197-209 | 0 for a missing key, the type error for another type, else the list's Lrem; it panics exactly where the list's unlink does |
| Keyspace.Ltrim | datastore/map.go:211-223 | no change for a missing key, the type error for another type, else the list's Ltrim; it panics where the list's scan does |
| Keyspace.Lset | datastore/map.go:225-237 | "key not exist" for a missing key, the type error for another type, else the list's Lset |
| Keyspace.Lpop | datastore/map.go:239-251 | nil for a missing key, the type error for another type, else the list's Lpop; a negative count panics |
| Keyspace.Rpop | datastore/map.go:253-265 | the mirror image of Lpop |
| Keyspace.Zadd | datastore/map.go:268-287 | a missing key gets a sorted set; another type gives the type error; otherwise every pair is added, the set holds exactly the old members and the given names, the reply counts the names that were new, each name holds the score of its last pair, members no pair names keep their scores, the key keeps its TTL and no other key changes; fewer scores than names index out of range |
| Keyspace.AddAll | datastore/map.go:280-285 | Zadd's loop: the count is the number of names that were new; a name given twice keeps its last score; members not named keep theirs; the set stays valid |
| Keyspace.Zrange | datastore/map.go:289-320 | no rows for a missing key, the type error for another type, else each member of the rank window, followed by its formatted score when asked |
| Keyspace.ZrangeByScore | datastore/map.go:322-353 | no rows for a missing key, the type error for another type, else the rows of `SortedSets.RangeByScore` |
| Keyspace.Zcard | datastore/map.go:355-367 | the number of members, 0 for a missing key, the type error for another type |
| Keyspace.Zrem | datastore/map.go:369-387 | 0 for a missing key, the type error for another type, else the number of names that were present, all of which are gone |
| Keyspace.Zcount | datastore/map.go:389-409 | 0 for a missing key, an error for another type or a non-float border, else the number of members within the borders; it panics on an empty set or an empty border |
| Keyspace.Zrank | datastore/map.go:411-423 | 0 for a missing key, the type error for another type, else the member's 0-based rank from either end, or -1 when absent; a present "" with no top-level node up to it also reads -1, or the length from the high end |
| Keyspace.SetThenGet | datastore/map.go:29-50 | a string just set reads back, at any clock |
| Keyspace.SetDelElsewhere | datastore/map.go:29-56 | setting or deleting one key does not change what another key reads |
| Keyspace.DelThenGet | datastore/map.go:35-56 | after Del the key reads as missing |
| Keyspace.SetTTLKeepsLive | datastore/map.go:71-76 | a key whose TTL was just set to a non-negative number of seconds is still live |
| Keyspace.PersistAfterDeadline | datastore/map.go:78-107 | after SetDeadLine and Persist the key reports -1 and never expires |
| Keyspace.RpushThenLrange | datastore/map.go:125-153 | pushing onto a missing key and reading the whole list back gives the pushed values |
| Resp.ReadLine | parser/parser.go:275-306 | in line mode: the bytes up to the first newline, which must follow a carriage return, otherwise a protocol error; in bulk mode: exactly bulkLen+2 bytes, with bulkLen cleared, and a panic when `make` refuses that length (above the runtime's 2^48 allocation limit, which also covers the int64 wrap); end of input is an I/O error |
| Resp.ReadLineCases | parser/parser.go:275-306 | the I/O error, the panics (a bare newline, or a bulk length `make` refuses), and the protocol error, each characterised by the input and the pending length alone |
| Resp.MultiBulkHeader | parser/parser.go:308-327 | `*0` is the empty multi-bulk reply; `*n` with n > 0 starts collecting n arguments; any other count is a protocol error and the state resets |
| Resp.BulkHeader | parser/parser.go:329-345 | `$-1` is the null bulk reply; `$n` with n >= 0 expects one argument of n bytes; other lengths are protocol errors |
| Resp.SingleLine | parser/parser.go:347-371 | `+s` is a status, `-s` an error, `:n` an integer or a protocol error when n is not an int64, anything else the multi-bulk reply of its space-separated words |
| Resp.SplitJoin | parser/parser.go:347-371 | joining the pieces of the split restores the line |
| Resp.Collect | parser/parser.go:160-172 | once every expected argument has arrived the multi-bulk or bulk reply is built and the state resets; before that nothing is sent |
| Resp.ReadBody | parser/parser.go:374-391 | a `$n` line sets the pending bulk length, a negative n adds an empty argument, any other line minus its CRLF is the next argument |
| Resp.Advance | parser/parser.go:76-175 | one iteration: an I/O error is sent and ends the loop, a panic ends it with nothing sent, a protocol error is sent and the state reset |
| Resp.Parse | parser/parser.go:76-175 | only the last payload can be an I/O error, and it is there exactly when the stream closed rather than crashed |
| Resp.CommandRoundTrip | parser/parser.go:106-172 | `*n` and n bulk strings, none starting with `$`, decode to one multi-bulk reply of exactly those strings, and the decoder is fresh again |
| Resp.DecodeCommand | parser/parser.go:76-175 | a whole input of one command decodes to its reply followed by the end-of-file error |
| Resp.DollarBodyReread | parser/parser.go:374-391 | a bulk body that starts with `$` is re-read as a length header: the body `$-1` arrives as an empty argument |
| Resp.BadLineRecovers | parser/parser.go:275-306 | a line without CRLF is sent as a protocol error and the loop resets and reads on |
| Resp.StatusLine | parser/parser.go:347-371 | `+s` decodes to the status s |
| Resp.SingleReplyFirst | parser/parser.go:186-273 | ParseSingleReply returns exactly the first payload the Parse0 loop would send, and nothing when that loop sends nothing |
| Resp.SingleReplyCommand | parser/parser.go:186-273 | reading one encoded command gives back exactly its multi-bulk reply |
| CommandArgs.Atoi | executer/parsecmd.go:28-34 | strconv.Atoi: the int64 value, or the error naming the input and the cause (syntax or range) |
| CommandArgs.AtoiFormatInt | executer/parsecmd.go:28-34 | every int64 written in decimal converts back to itself |
| CommandArgs.PrePush | executer/parsecmd.go:12-21 | fewer than 3 arguments are MissParamErr; otherwise the values are args[2:] in order |
| CommandArgs.PushArgs | executer/parsecmd.go:12-21 | a push command built from a key and values parses back to those values |
| CommandArgs.PreLrange | executer/parsecmd.go:23-36 | fewer than 4 arguments are MissParamErr; otherwise the key and both indices, or the first Atoi error unchanged |
| CommandArgs.LrangeArgs | executer/parsecmd.go:23-36 | indices written in decimal parse back, and extra arguments are ignored |
| CommandArgs.PreLset | executer/parsecmd.go:38-49 | too few arguments are MissParamErr; otherwise the key, the index (or its Atoi error) and the value |
| CommandArgs.LsetArgs | executer/parsecmd.go:38-49 | an lset command with a decimal index parses back to its parts |
| CommandArgs.PreLindex | executer/parsecmd.go:51-60 | too few arguments are MissParamErr; otherwise the key and the index, or its Atoi error |
| CommandArgs.LindexArgs | executer/parsecmd.go:51-60 | an lindex command with a decimal index parses back to its parts |
| CommandArgs.PrePop | executer/parsecmd.go:62-74 | no key is MissParamErr; exactly 2 arguments give count 1; otherwise the count is Atoi(args[2]) |
| CommandArgs.PopDefault | executer/parsecmd.go:62-74 | leaving the count out is the same as giving 1 |
| CommandArgs.PreLinsert | executer/parsecmd.go:76-91 | fewer than 5 arguments are MissParamErr; the position must be before or after in any case, anything else is ParamUncorrect |
| CommandArgs.InsertPositionDistinct | executer/parsecmd.go:76-91 | no word matches both before and after |
| CommandArgs.KeywordsFold | executer/parsecmd.go:76-91 | the keywords match in upper case too |
| CommandArgs.PreLrem | executer/parsecmd.go:93-104 | too few arguments are MissParamErr; otherwise the key, the count (or its Atoi error) and the value |
| CommandArgs.LremArgs | executer/parsecmd.go:93-104 | an lrem command with a decimal count parses back to its parts |
| CommandArgs.PairsOk | executer/parsecmd.go:107-125 | the pairs are read in full exactly when every score is a float |
| CommandArgs.PairsValues | executer/parsecmd.go:107-125 | when read in full, the j-th name and score are those of the j-th pair, and there are (len-2)/2 of each |
| CommandArgs.PairsError | executer/parsecmd.go:107-125 | when a score is not a float, the error is that of the first such score |
| CommandArgs.PreZadd | executer/parsecmd.go:107-125 | fewer than 4 arguments are MissParamErr; it succeeds exactly when every score is a float, and then yields the names and scores in order |
| CommandArgs.ZaddArgsRoundTrip | executer/parsecmd.go:107-125 | a zadd command written from names and integer scores parses back to them |
| CommandArgs.PreZrevrange | executer/parsecmd.go:127-142 | two int64 ranks; withScore exactly when there are 5 arguments and the fifth is WITHSCORES in any case |
| CommandArgs.ZrangeArgs | executer/parsecmd.go:127-142 | a range command with decimal ranks parses back, with scores exactly when WITHSCORES is given |
| CommandArgs.ScoreOptions | executer/parsecmd.go:144-205 | only 4, 5 (WITHSCORES), 7 (LIMIT off cnt) and 8 (WITHSCORES LIMIT off cnt) arguments are accepted; any other count of 4 or more is ParamUncorrect |
| CommandArgs.PreZrankByScoreAsWritten | executer/parsecmd.go:144-205 | as written: without LIMIT the count keeps its zero value |
| CommandArgs.PreZrankByScore | executer/parsecmd.go:144-205 | the count defaults to -1, meaning no limit, when no LIMIT is given |
| CommandArgs.ScoreQueryArgs | executer/parsecmd.go:144-205 | a query with integer borders and LIMIT parses back to its parts |
| CommandArgs.GetKey | executer/parsecmd.go:207-214 | `["ping"]` is the heartbeat; 2 or more arguments give key args[1]; otherwise the key is empty and it is not a heartbeat |
| Executer.Get | executer/executer.go:39-47 | the bulk reply holds the bytes of a live string and nil otherwise; a key found expired is deleted, nothing else changes |
| Executer.GetAll | executer/executer.go:54-63 | each mget entry is what Get reports on the original keyspace; exactly the expired keys among them are deleted |
| Executer.SetPairs | executer/executer.go:48-53 | mset's keys are those of the store and of the pairs; a trailing key without a value is ignored |
| Executer.SetPairsLastWins | executer/executer.go:48-53 | after mset each key holds the value of its last pair, as a string with no TTL |
| Executer.SetPairsKeeps | executer/executer.go:48-53 | mset leaves every key outside the pairs untouched |
| Executer.Msetnx | executer/executer.go:64-76 | if any listed key is live the reply is the error "0" and nothing is written; otherwise every pair is set |
| Executer.DelAll | executer/executer.go:77-89 | the reply counts the distinct listed keys Get reports as existing, and exactly those are deleted |
| Executer.Expire | executer/executer.go:110-123 | missing or expired key: 0; bad amount: the Atoi error; otherwise the deadline becomes now plus the seconds, the data stays, the reply is 1, and no other key changes |
| Executer.Expireat | executer/executer.go:138-151 | as expire, with the deadline set to the instant `time.Unix(sec, 0)` names: that Unix second, or, where the int64 count of seconds since year 1 wraps, an instant before year 1 |
| Executer.Persist | executer/executer.go:129-137 | missing or expired key: 0; otherwise Persist's 0 or 1, and the key is left without a TTL |
| Executer.Push | executer/executer.go:152-171 | the argument error; the type error for another type; otherwise the values pushed at the head (reversed) or tail, and the reply is their number |
| Executer.Linsert | executer/executer.go:197-206 | linsert keeps every sorted set valid |
| Executer.Lrem | executer/executer.go:207-216 | lrem keeps every sorted set valid when it does not panic |
| Executer.Ltrim | executer/executer.go:217-225 | ltrim keeps every sorted set valid when it does not panic |
| Executer.Lset | executer/executer.go:226-234 | the argument error, or the list updated as Lset says and the reply OK, whatever Lset returned |
| Executer.Pop | executer/executer.go:235-254 | lpop and rpop keep every sorted set valid when they do not panic |
| Executer.Zadd | executer/executer.go:255-264 | the argument error; the type error for another type; otherwise the count of new members, the set holds the old and the given members, each name holds its last given score, the other members keep theirs, and no other key changes |
| Executer.ScoreRange | executer/executer.go:312-331 | the reply panics exactly when the argument parser does |
| Executer.StringCommand | executer/executer.go:31-109 | any name outside the string commands is not implemented; the sorted sets stay valid |
| Executer.TtlCommand | executer/executer.go:110-151 | any name outside the TTL commands is not implemented; the sorted sets stay valid |
| Executer.ListCommand | executer/executer.go:152-254 | any name outside the list commands is not implemented; the sorted sets stay valid |
| Executer.ZSetCommand | executer/executer.go:255-349 | any name outside the sorted-set commands is not implemented; the sorted sets stay valid |
| Executer.Execute | executer/executer.go:26-352 | empty args reply ParamNotFoundErr; a name not matched exactly replies ParamNotImplementedErr; neither changes anything, and every command keeps the sorted sets valid |
| Executer.SetThenGet | executer/executer.go:33-47 | set replies OK, and a later get replies the stored value |
| Executer.ExistsReply | executer/executer.go:101-109 | exists replies 1 exactly for a key Get reports as existing, of any type, and changes nothing |
| Executer.KnownLowerCase | executer/executer.go:30 | every name the switch matches is lower-case, so other spellings are not implemented |
| Executer.MgetIsGets | executer/executer.go:39-63 | each mget entry is what get of that key alone replies |
| Executer.DelThenExists | executer/executer.go:77-109 | del replies the number of distinct live keys given, none of them exists afterwards, and other keys are untouched |
| Executer.MsetThenGet | executer/executer.go:39-53 | after mset, get of a key replies the value of its last pair |
| Executer.MsetnxAllOrNothing | executer/executer.go:64-76 | msetnx writes every pair or none |
| Executer.ExpireThenTtl | executer/executer.go:110-128 | expire n on a live key, then ttl, replies n |
| Executer.ExpireatThenExists | executer/executer.go:138-151 | after expireat t the key exists exactly at instants up to t seconds after the epoch; for t above INT64_MAX - 62135596800 the deadline wraps, and at any instant from year 1 on the key is gone |
| Executer.LsetAlwaysOk | executer/executer.go:226-234 | lset replies OK even when the list's Lset fails on a missing key |
| Executer.ScoreRangeAsWrittenEmpty | executer/executer.go:312-321 | with the as-written parser, a score query without LIMIT replies no rows whatever the set holds |
| Executer.ScoreRangeAll | executer/executer.go:312-321 | with the corrected parser the same query replies every member within the borders, in walk order, unless hasInRange's `Value` test rules the borders out |
| Executer.ScoreRangeAsWrittenMisses | executer/executer.go:312-321 | whenever a member lies within borders that hasInRange admits, the two replies differ |
| Executer.ExecuteScoreRange | executer/executer.go:312-321 | Execute answers `zrangebyscore key lo hi` with the as-written query: on a sorted set with two well-formed borders, no rows and no change |
| HashRing.New | algorithm/consistenthash.go:33-43 | an empty, valid ring with the given replica count and hash function |
| HashRing.AddNode | algorithm/consistenthash.go:53-68 | the points are sorted and are the old points plus `replicas` hashes of `itoa(i)+id` per non-empty id; the ring stays valid |
| HashRing.SortInts | algorithm/consistenthash.go:67 | the same values, ascending |
| HashRing.AddNodeKeeps | algorithm/consistenthash.go:58-65 | a point no given id brings keeps its owner |
| HashRing.AddNodeLastWins | algorithm/consistenthash.go:58-65 | a colliding point belongs to the last non-empty id that brings it |
| HashRing.PartitionKeyAsWrittenPanics | algorithm/consistenthash.go:71-81 | as written, getPartitionKey panics exactly when a `}` comes before the first `{` |
| HashRing.PartitionKeyAsWrittenExample | algorithm/consistenthash.go:71-81 | on `}{a}` the as-written version panics and the corrected one gives `a` |
| HashRing.PartitionKeyAgrees | algorithm/consistenthash.go:71-81 | wherever the as-written version does not panic, it equals the corrected one |
| HashRing.PartitionKey | algorithm/consistenthash.go:71-81 | the whole key, or a non-empty tag with no `}` in it |
| HashRing.PartitionKeyTag | algorithm/consistenthash.go:71-81 | a key `pre{tag}post`, with no `{` in pre and a non-empty tag without `}`, gives tag |
| HashRing.PartitionKeySplit | algorithm/consistenthash.go:71-81 | a key the tag rule changes has that shape, and the tag is what it gives |
| HashRing.Search | algorithm/consistenthash.go:92 | sort.Search: the smallest index whose point is at least the hash, or the length |
| HashRing.PickNode | algorithm/consistenthash.go:84-101 | "" on an empty ring; on another ring a panic exactly when a `}` comes before the first `{` of the key; otherwise the owner after the hash of the key's (corrected) partition key |
| HashRing.PickNodeSuccessor | algorithm/consistenthash.go:84-101 | on a non-empty valid ring, unless the key panics, the node owns the smallest point not below the key's hash, or the smallest point when all are below; it is a non-empty id with that virtual point |
| HashRing.PickNodeEmpty | algorithm/consistenthash.go:84-87 | on a valid ring IsEmpty holds exactly when PickNode answers "" without panicking |
| HashRing.SameTagSameNode | algorithm/consistenthash.go:84-101 | keys sharing a hash tag land on the same node unless one panics; one with no `}` before its `{` does not |
| HashRing.TagKeyNoPanic | algorithm/consistenthash.go:71-81 | in `pre{tag}post` with neither brace in pre, no `}` comes before the first `{` |
| Aof.ExpireToExpireAt | aof/aof.go:76-86 | fewer than 3 arguments or a non-integer amount leave the command unchanged; otherwise it is exactly `expireat key decimal(now+sec)`, int64 wrap-around included, and trailing arguments are dropped |
| Aof.RewriteIgnoresName | aof/aof.go:76-86 | the command name is never inspected |
| Aof.ReplayDeadline | aof/aof.go:76-86 | replaying the logged expireat sets the deadline expire set, less the fraction of the second the clock had passed |

## Left out

- server/tcp/backend.go: sockets, connection goroutines, heartbeats,
  signals and peer dialling. Its choice between serving locally and
  forwarding is `CommandArgs.GetKey` followed by `HashRing.PickNode`, and
  both are modelled, PickNode with getPartitionKey's panic.
- aof/aof.go `NewAofInstance`, `ToCmdCh`, `Persist`, `Init`: file I/O, a
  bounded channel and a timer.
- parser/parser.go `ParseStream`, `ParseBytes`, `ParseOne`,
  `WaitReplyWithTime`: goroutine, channel and timeout plumbing around the
  decoder.
- `ParseSingleReply`'s recovered panic: it returns a nil channel. A bare
  receive on it blocks; `WaitReplyWithTime` gives up on it when its timer
  fires. The model reports this as no payload.
- Resp.ReadLine: a bulk length within the allocation limit but beyond the
  memory actually available ends the process with the runtime's fatal
  out-of-memory error, which no model step expresses; the limit itself
  is the 2^48 of 64-bit Linux, other platforms differ.
- datastruct/main.go and datastruct/list.go: stale copies of the list
  that the keyspace does not import.
- main.go, cli/client.go, server/main.go: the console client and the
  bootstrap I/O.
- The reply types' `ToBytes` encoders: entity/reply.go is not part of
  this model. Replies are a datatype, and an error reply keeps its error
  value.
- `crc32.ChecksumIEEE`, and `New`'s choice of it when no hash is given:
  the hash is a function parameter of the ring.
- `%v` float formatting in the zrange rows: a parameter.
- Floating point: scores are exact reals. `ParseFloat` accepts only
  `[+-]digits[.digits]`, with no exponent, hexadecimal, inf or nan
  spellings and no rounding.
- `strings.EqualFold`: modelled by ASCII case folding only. Unicode
  folding is not.
- `randomLevel` and the randomness: each insertion's level is a parameter
  in 1..16. The code's `randomLevel` returns 17 when the drawn number is
  0, which would index past `update` in insert. That level is not
  modelled.
- The `sync.Mutex` of the keyspace: every operation is one atomic step.
- `time.Now`: a parameter.
- `ttl.NewTTLWithDeadLine`: not part of this model. It is taken to keep
  the deadline it is given.
- `GetKeys` of the ring: a plain accessor.
- Replies to commands are stated by group functions and lemmas over
  `Executer.StringCommand` and friends. `Execute` itself only states the
  errors, the dispatch and validity.
- Executer.Linsert: states only that sorted sets stay valid; its reply is
  that of `Keyspace.Linsert`, whose contract carries the meaning.
- Executer.Lrem: states only validity; the reply is `Keyspace.Lrem`'s.
- Executer.Ltrim: states only validity; the reply is `Keyspace.Ltrim`'s.
- Executer.Pop: states only validity; the reply is that of `Keyspace.Lpop`
  or `Keyspace.Rpop`.
- Executer.ScoreRange: states only when it panics; its rows are those of
  `Keyspace.ZrangeByScore`, and `Executer.ScoreRangeAll` states them for
  queries without options.
- HashRing.PickNode: names the node through `OwnerAfter`; which point
  that owner holds is stated by `HashRing.PickNodeSuccessor`.
- Executer.ScoreRangeAsWrittenMisses: says nothing of borders that
  hasInRange as written rules out, since there both parsers reply no rows.
- Executer.StringCommand, Executer.TtlCommand, Executer.ListCommand and
  Executer.ZSetCommand: they state the dispatch and validity, and the
  lemmas below them state the replies of the individual commands.
- Thin command wrappers such as `Executer.Lrange`, `Executer.Lindex`,
  `Executer.Zrange` and `Executer.Zcount` carry no contract. Their replies
  are those of the keyspace operations they call.

## Findings

| source | as written | input that shows it | evidently intended | confidence | as-written member | corrected member |
|---|---|---|---|---|---|---|
| datastruct/sortedset/skiplist.go:222-237 | hasInRange compares the `Value` field of the borders even when a border is infinite, and an infinite border's Value is 0 | `zadd z -10 a`, then `zrangebyscore z -inf -5 LIMIT 0 1`: min's Value 0 > max's Value -5, so the range is declared empty and nothing is returned; likewise any finite min above 0 with `+inf`, such as `zadd z 10 a`, then `zrangebyscore z 5 +inf LIMIT 0 10` | the emptiness test only applies to finite borders | high (not executed) | SkiplistOps.HasInRangeAsWrittenMisses | SkiplistOps.HasInRangeNecessary |
| datastruct/sortedset/skiplist.go:186-203 | getRank's member test also matches the header node, whose member is "" | `zadd z 1 ""` drawing level 1 and `zadd z 2 b` drawing level 2: getRank of "" stops on the header at the top level and answers 0, so `zrank z ""` replies -1 instead of 0 | the header is never a match | medium (not executed) | SkiplistOps.GetRankHeaderQuirk | SkiplistOps.GetRankFinds |
| executer/parsecmd.go:144-205 | without LIMIT, the count keeps its zero value, and a zero limit makes the score walk return nothing | `zadd z 1 a`, then `zrangebyscore z -inf +inf` replies an empty list | no LIMIT means no limit | high (not executed) | Executer.ScoreRangeAsWrittenMisses | Executer.ScoreRangeAll |
| algorithm/consistenthash.go:71-81 | the `}` is searched from the start of the key, not after the `{` | key `}{a}`: beg = 1, end = 0, and `key[2:0]` panics | the tag is the text between `{` and the first `}` after it | high (not executed) | HashRing.PartitionKeyAsWrittenPanics | HashRing.PartitionKeyTag |
