# bcmap in Dafny

A model of `bcmap`, a separate-chaining hash table in C whose keys are
NUL-terminated strings compared with `strcmp` and whose values are opaque
references. The table holds `capacity` buckets (initially 11), each a singly
linked chain of entries kept in tail-insertion order, and a `count` of nodes.
`bcmap_put` grows the table to three times its capacity before placing a key
whenever `count / capacity >= 0.7`, rebuilding it by replaying `bcmap_put`
over every old node; `bcmap_rm` reports whether a key is present and fires the
free callbacks on it but leaves the node in place; `bcmap_for` traverses with
early stop; `bcmap_del` fires the free callbacks on every node.

The model is functional: a table is an immutable value
`Map(capacity, count, buckets)` with `buckets: seq<seq<Entry<V>>>`, and every
operation returns what the C function leaves behind and reports.

| file | module | contents |
|---|---|---|
| `wrappers.dfy` | `Wrappers` | `Option`, for "value or NULL" |
| `cstring.dfy` | `CString` | bytes, NUL-free keys, `strcmp` (`StrCmp`) |
| `djb2.dfy` | `Djb2` | the wrapping djb2 hash, its closed form, the hash loop |
| `chain.dfy` | `Chain` | entries and the chain walk (`FindIndex`, `Lookup`) |
| `bcmap.dfy` | `BcMap` | the table and its operations |
| `properties.dfy` | `Properties` | invariant, put/get, growth, remap, rm, for, del theorems |
| `loops.dfy` | `Loops` | `bcmap_for`, `bcmap_del` and `remap` as the C loops are written |
| `scenario.dfy` | `Scenario` | a worked run: put "a", overwrite it, put "b", traverse, remove, delete |

Modelling choices:

- Keys are `CString.Key`: byte sequences without a NUL, the bytes a
  `const char *` key points at before its terminator. Key equality is
  `StrCmp(a, b) == 0`, which `StrCmp`'s contract proves is sequence equality.
- Values are a type parameter `V`. `bcmap_get`'s NULL for a missing key is
  `None`; `bcmap_put` requires a non-NULL value, so no stored value is NULL.
- The hash is computed as written on a platform whose `size_t` is 64 bits,
  each `size_t` operation wrapping modulo 2^64, and is proved equal to the
  djb2 polynomial modulo 2^64.
- The load factor test `(double) count / capacity >= 0.7` is the integer test
  `count * 10 >= capacity * 7` (`NeedsGrow`), and growth multiplies the
  capacity by 3.
- The free callbacks of `bcmap_rm` and `bcmap_del` are two booleans (callback
  given or NULL); the operations return the sequence of calls they make
  (`Freed`: a key or a value handed to its callback).
- The `bcmap_for` callback is a function `(key, value, state) -> (go on?, state)`;
  the `void *s` it receives is the threaded state.
- `Remap` is stated as a replay of the chain walk (`Place`) over all old
  entries. The C code replays the full `bcmap_put`, growth check included;
  `Loops.RemapLoop` is that loop, calling `Put`, and is proved equal to
  `Remap` whenever the growth check cannot fire during the rebuild, which
  `Loops.GrowthRemapNeverNests` shows is always the case when `bcmap_put`
  grows a reachable table.
- The bucket scans of `bcmap_for`, `bcmap_del` and `remap` stop when a count
  reaches zero rather than at the end of the array: `bcmap_for` and `remap`
  run down a local copy of `count`, while `bcmap_del` decrements the table's
  own `count` field to 0 before freeing the table (`Loops.DelLoop`'s local
  `count` stands for that field). The functional operations walk the
  flattened entries (`Entries`); the methods in `Loops` mirror the
  count-driven loops, each inner chain walk as a method of its own, and are
  proved equal on every table whose count is its number of nodes.

Two statements one could expect of this table do not hold of the code, and
the model follows the code:

- After `bcmap_put`, `count / capacity < 0.7` is not guaranteed: the check
  runs before the key is placed, so the eighth key in the initial 11 buckets
  leaves 8/11 (`Properties.LoadFactorExceeded`). What holds is
  `(count - 1) * 10 < capacity * 7` (`Properties.PutReachable`), and
  `count * 10 < capacity * 7` at the moment a key is placed
  (`Properties.PlacedBelowLoad`).
- `bcmap_rm` removes nothing: the node stays, `count` stays, and later
  `get`, `for` and `del` still see the entry (`Rm` returns no table).

## Model

| member | source | states |
|---|---|---|
| `CString.StrCmp` | bcmap.c:198-203 | the comparator returns 0 exactly for equal strings, and a negative value exactly when the first string orders before the second (a proper prefix of it, or smaller at the first differing byte) |
| `CString.StrCmpAntisymmetric` | bcmap.c:198-203 | swapping the two strings negates the comparison |
| `Djb2.Hash` | bcmap.c:44-56 | the djb2 hash of a key's bytes; its own contract states only that it is below 2^64 (see `Djb2.HashIsPolynomial`) |
| `Djb2.Step` | bcmap.c:53 | `(h << 5) + h + c` with each `size_t` operation wrapping equals `(h * 33 + c) mod 2^64` |
| `Djb2.HashIsPolynomial` | bcmap.c:44-56 | the hash of a string of n bytes is `5381 * 33^n + sum s[i] * 33^(n-1-i)` modulo 2^64 |
| `Djb2.HashCString` | bcmap.c:44-56 | reading a buffer up to its first NUL yields the hash of the string before the terminator, the djb2 polynomial modulo 2^64 |
| `Chain.FindIndex` | bcmap.c:113-118 | the chain walk stops at the first entry whose key compares equal, no earlier entry has that key, and it finds nothing exactly when no entry has it |
| `Chain.Lookup` | bcmap.c:113-120 | the walk returns a value exactly when the key is present, and then it is the value of the first entry with that key |
| `Chain.LookupAppend` | bcmap.c:113-118 | searching a concatenation finds the key in the first part if it is there, and otherwise in the second |
| `BcMap.Index` | bcmap.c:110 | the bucket of a key, `hash(key) % capacity` as get, rm and put compute it (bcmap.c:127, 172), is a valid bucket index |
| `BcMap.New` | bcmap.c:147-160 | a new table has capacity 11, count 0, satisfies the table invariant and holds no key |
| `BcMap.Get` | bcmap.c:107-121 | get returns NULL exactly when no entry of the key's bucket `hash(key) % capacity` has the key, and otherwise the value of the first entry of that chain with the key |
| `BcMap.Place` | bcmap.c:172-195 | a new key is appended at the tail of bucket `hash(key) % capacity` and counted; a present key has its first matching entry's value replaced in place with the count unchanged; every other bucket is unchanged |
| `BcMap.Replay` | bcmap.c:69-79 | replaying entries into a table keeps its capacity and adds at most one node per entry |
| `BcMap.Remap` | bcmap.c:58-81 | the rebuilt table has the requested capacity and no more nodes than the old one |
| `BcMap.Grow` | bcmap.c:169-170 | the capacity is tripled exactly when `count * 10 >= capacity * 7`, and otherwise kept |
| `BcMap.Put` | bcmap.c:162-196 | put grows the capacity threefold exactly when the load factor was reached beforehand, so the capacity never shrinks; a capacity within `size_t` stays within it |
| `BcMap.Len` | bcmap.c:225-229 | the length reported is the table's count field, which on a valid table is the number of nodes |
| `BcMap.DelCalls` | bcmap.c:92-101 | the number of calls fired over a run of entries: one per given callback per entry |
| `BcMap.Del` | bcmap.c:83-105 | the calls del fires over all entries in bucket-then-chain order, one per given callback per node |
| `BcMap.Rm` | bcmap.c:123-145 | rm reports found exactly when get would return a value, and then fires the key callback then the value callback (each only when given) on that stored pair, and otherwise fires none |
| `BcMap.Walk` | bcmap.c:212-222 | the traversal visits at most all entries, all of them when it reports completion, and at least one when it stops early |
| `BcMap.For` | bcmap.c:205-223 | for visits at most as many entries as the table holds |
| `Properties.EntriesUnique` | bcmap.c:172-195 | in a valid table no key is stored twice, across all buckets |
| `Properties.GetMatchesEntries` | bcmap.c:107-121 | get, which searches one bucket, returns what a search of every entry in bucket-then-chain order returns |
| `Properties.GetMeansStored` | bcmap.c:107-121 | get returns v for k exactly when the pair (k, v) is stored in the table |
| `Properties.GetAfterPlace` | bcmap.c:172-195 | after the chain walk of put places (k, v), get(k) is v and every other key reads as before |
| `Properties.ValidAfterPlace` | bcmap.c:172-195 | placing a key keeps every entry in its hash bucket, keys unique and count equal to the number of nodes |
| `Properties.ReplayValid` | bcmap.c:69-79 | replaying entries keeps the table invariant |
| `Properties.ReplayGet` | bcmap.c:69-79 | after replaying duplicate-free entries a replayed key reads as its replayed value and any other as before |
| `Properties.ReplayCount` | bcmap.c:69-79 | replaying duplicate-free entries with new keys adds exactly one node per entry |
| `Properties.RemapPreserves` | bcmap.c:58-81 | remap keeps the invariant (every entry in bucket `hash(key) % new capacity`, no duplicate keys), the count, the value every key reads as, and the set of stored pairs |
| `Properties.GrowPreserves` | bcmap.c:169-170 | the growth check changes neither the invariant, the count nor the value any key reads as |
| `Properties.PutValid` | bcmap.c:162-196 | put keeps the table invariant |
| `Properties.PutGet` | bcmap.c:162-196 | after put(k, v), get(k) returns v and every other key reads as before, whether or not the table grew |
| `Properties.PutCount` | bcmap.c:175-195 | put increments the length by exactly 1 for a new key and leaves it unchanged for a present key |
| `Properties.PutNewKey` | bcmap.c:169-195 | put of a new key appends (k, v) at the tail of bucket `hash(k) % capacity` of the table as the growth check left it, counts it, and changes no other bucket |
| `Properties.PutExistingKeyGrown` | bcmap.c:169-179 | put of a present key at any load, after the growth check has possibly rebuilt the table, replaces only that entry's value in the rebuilt chain: count, key order of the chain and every other bucket of the grown table unchanged |
| `Properties.PutExistingKey` | bcmap.c:175-179 | put of a present key, below the load factor, replaces only that entry's value: capacity, count, the key order of the chain and every other entry unchanged |
| `Properties.NewReachable` | bcmap.c:147-160 | a new table satisfies every reachability invariant, with length 0 and capacity 11 |
| `Properties.PlacedBelowLoad` | bcmap.c:169-172 | when put places its key, after the growth check, `count * 10 < capacity * 7` for the capacity in use |
| `Properties.PutReachable` | bcmap.c:162-196 | put keeps the invariant, `(count - 1) * 10 < capacity * 7`, and a capacity of the form 11 * 3^j that never shrinks |
| `Properties.LoadFactorExceeded` | bcmap.c:169-170 | the eighth new key put into 11 buckets does not grow the table, which then holds 8 entries in 11 buckets, above 0.7 |
| `Properties.GrowthFitsBelowBound` | bcmap.c:170 | a reachable table with fewer than 2^60 entries grows to a capacity that fits in `size_t` |
| `Properties.PutAll` | bcmap.c:162-196 | a run of puts keeps every reachability invariant and adds at most one node per put |
| `Properties.PutAllGet` | bcmap.c:162-196 | after any run of puts, across any number of growths, every key put reads as the last value it was given and every other key as before |
| `Properties.PutAllGetLast` | bcmap.c:162-196 | after a run of puts, a key reads as the value of its last put |
| `Properties.PutAllGetUntouched` | bcmap.c:162-196 | after a run of puts, a key never put reads as before |
| `Properties.PutAllNewHas` | bcmap.c:147-196 | a new table after any run of puts holds a key exactly when the run put it |
| `Properties.PutAllLenStep` | bcmap.c:175-195 | in a run of puts into a new table, a put adds one to the length exactly when its key was not put before in the run |
| `Properties.PutAllLen` | bcmap.c:147-196 | the length of a new table after any run of puts is the number of distinct keys put |
| `Properties.RmFindsStored` | bcmap.c:123-145 | rm reports found exactly when a pair with the key is stored anywhere in the table, and then frees exactly that stored key and value |
| `Properties.WalkStopsAtFirstRefusal` | bcmap.c:212-222 | the traversal calls back in order, reports completion exactly when every callback asked to go on, and otherwise stops right after the first callback that returned 0; the state is the one left by the callbacks run |
| `Properties.ForVisits` | bcmap.c:205-223 | on a valid table, for returns 1 after exactly len callbacks on every entry in bucket-then-chain order, or returns 0 right after the first callback that returned 0 |
| `Properties.DelCallsConcat` | bcmap.c:90-102 | the teardown of two runs of entries fires the calls of the first run, then those of the second |
| `Properties.DelCallsAt` | bcmap.c:92-101 | entry i's key callback then value callback come right after the calls of the entries before it |
| `Properties.DelCallsSlot` | bcmap.c:92-101 | entry i's calls sit at positions w * i up to w * i + w of the teardown calls, w being the number of callbacks given |
| `Properties.DelFreesEachOnce` | bcmap.c:83-105 | on a valid table, del fires each given callback exactly once per node, node after node in bucket-then-chain order |
| `Loops.WalkConcat` | bcmap.c:212-222 | traversing two runs of entries traverses the first, then, unless a callback returned 0, the second from the state the first left |
| `Loops.ForChain` | bcmap.c:215-220 | the inner walk of bcmap_for down one chain makes exactly the callbacks of the traversal of that chain, stopping at the first 0 |
| `Loops.ForLoop` | bcmap.c:205-223 | the count-driven double loop of bcmap_for returns what the traversal of all entries returns, and on completion has visited len entries |
| `Loops.DelChain` | bcmap.c:92-101 | the inner walk of bcmap_del down one chain fires exactly the teardown calls of that chain |
| `Loops.DelLoop` | bcmap.c:83-105 | the count-driven double loop of bcmap_del fires exactly the calls of the teardown of all entries |
| `Loops.ReplayConcat` | bcmap.c:69-79 | rebuilding from two runs of entries is rebuilding from the first, then continuing with the second |
| `Loops.RemapChain` | bcmap.c:72-78 | the inner walk of remap, putting every node of one chain with the full put, is a replay of that chain when the load factor is never reached |
| `Loops.RemapLoop` | bcmap.c:58-81 | remap's loop, calling the full put with its growth check, builds the same table as replaying the chain walk, when the rebuilt capacity keeps the count below the load factor |
| `Loops.ReplayStep` | bcmap.c:69-78 | below the load factor, put inside remap is a plain chain walk and advances the replay by one entry |
| `Loops.GrowthRemapNeverNests` | bcmap.c:169-170 | when put grows a reachable table, the rebuild's puts never reach the load factor of the tripled capacity, so no growth happens inside remap |
| `Loops.PutAsWritten` | bcmap.c:162-196 | put as written, its growth running remap's loop of full puts, builds exactly the table `Put` describes on every reachable table |
| `Scenario.ScenarioBuckets` | bcmap.c:44-56 | "a" hashes to 177670 and bucket 9 of 11, "b" to 177671 and bucket 10 |
| `Scenario.ScenarioReads` | bcmap.c:162-196 | put "a" 1, put "a" 2, put "b" 3: get reads 1, then 2, then 2 and 3, with lengths 1, 1, 2 |
| `Scenario.ScenarioOrder` | bcmap.c:205-223 | for with a callback that collects what it is handed and always goes on returns 1 after two callbacks, handed ("a", 2) then ("b", 3) |
| `Scenario.ScenarioRemove` | bcmap.c:123-145 | rm "a" with both callbacks reports found, frees the key "a" then the value 2, and the length stays 2 |
| `Scenario.ScenarioDelete` | bcmap.c:83-105 | del with both callbacks frees "a", 2, "b", 3 in that order |

## Left out

- Allocation failure (`xmalloc`/`xcalloc` printing a diagnostic and exiting, bcmap.c:22-42) and the unchecked `calloc` in `bcmap_new` (bcmap.c:156): allocation is treated as always succeeding.
- Memory itself: freeing nodes, the bucket array and the table, and dangling references after `bcmap_rm` or `bcmap_del`. The free callbacks are a returned list of calls; the table after `bcmap_del` is not modelled.
- Object identity: keys are their string contents and values an opaque type. On an update the C code keeps the stored key pointer; the model keeps the stored key, equal in content to the one passed.
- Comparators other than `bcmap_strcmp`: the hash always reads keys as C strings, so only string keys are modelled.
- `CString.StrCmp`: its magnitude: `strcmp` only promises a sign; the model returns the byte difference at the first mismatch.
- Floating point: the load-factor test and the growth product are computed in `double` (bcmap.c:169-170); the model uses the exact integer forms, which agree with the double computation for capacities 11 * 3^j of tables that fit in memory.
- `BcMap.Put`: requires `GrowthFits`, that a growth keeps `capacity * 3` within `size_t`; overflow of `capacity` or `count` is not modelled.
- The debug `assert`s (non-NULL table, key, value, comparator and callback) are implicit in the types: no argument can be NULL.
- Platforms whose `size_t` is not 64 bits: there the hash wraps modulo 2^32 (or another width) and keys land in other buckets; only the 64-bit case is modelled.
- `Djb2.Hash`: its contract states only the range; what it computes is stated by `Djb2.HashIsPolynomial` and `Djb2.HashCString`.
- `BcMap.Len`: its contract ties the count to the nodes only on valid tables; `Properties.PutAllLen` states what it returns after a run of puts.
- `BcMap.DelCalls`: its contract states the number of calls; `Properties.DelCallsConcat`, `Properties.DelCallsAt` and `Properties.DelCallsSlot` state which calls, in which order.
- `BcMap.Del`: its contract states the number of calls; `Properties.DelFreesEachOnce` states which calls, in which order.
- `BcMap.Replay`: its own contract gives bounds; validity, the mapping and the count are `Properties.ReplayValid`, `Properties.ReplayGet` and `Properties.ReplayCount`.
- `BcMap.Remap`: its own contract gives the capacity and a node bound; preservation of validity, count and mapping is `Properties.RemapPreserves`.
- `BcMap.Walk`: its own contract gives bounds on the visits; the order and the stop at the first refusal are `Properties.WalkStopsAtFirstRefusal`.
- `BcMap.For`: its own contract gives a bound on the visits; the order, the completion and the early stop are `Properties.ForVisits` and `Loops.ForLoop`.
- The count-driven bucket scans are modelled only on tables whose count equals their number of nodes, which every reachable table satisfies; on other tables the C loops read past the bucket array or stop early.
- `bcmap_hash`, declared in bcmap.h:27, has no definition; only the static `hash` exists and is modelled.
- The command-line driver test.c (argument parsing, random strings, printing, exit codes).
- Concurrency: the table is single-threaded.
- `BcMap.For`: the callback is a pure function of the key, the value and the state. A C callback that calls `bcmap_put` on the same table during the traversal can trigger a remap that frees the node being walked (bcmap.c:170, 75); that re-entrant use is not modelled.
- `BcMap.Put` and `BcMap.Grow` agree with `bcmap_put` only on tables whose rebuild cannot grow again. A valid table holding 25 entries in 11 buckets grows to 33 buckets in the model, while the puts inside `remap` would grow it again to 99. Such a table cannot be built through `bcmap_new` and `bcmap_put` (`Properties.Reachable`, `Loops.GrowthRemapNeverNests`), so the model leaves it out.
