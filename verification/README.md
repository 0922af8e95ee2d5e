# Counter store of the m3 counter service

This project models the named-counter store behind the m3 service of the
spring-democloud demo: the `Counter` class (one named Java `int` cell) and
the `Counters` service with its inner `CounterPool` (a lazily filled
`HashMap` from key to `Counter`). The HTTP layer maps
`POST /counters/{id}` to `next`, `GET /counters/{id}` to `get`,
`DELETE /counters/{id}` to `reset` and `GET /counters` to `collect`.
Those four operations, plus `resetAll` (part of the Java API, with no HTTP
mapping), are what is modelled.

Each operation is modelled as one atomic step, and runs are sequences of such
steps. This is an assumption of the model: the pool's own methods are
`synchronized`, but `Counters.get`, `next` and `reset` are not (see
"## Left out"). The pool is an immutable `map<string, Counter>`, and each
operation is a pure function from the pool to the pool afterwards and the
`{name, value}` record it answers with. `collect` is a method, because
the order of a `HashMap` key set is unspecified; the model leaves the order
open and pins down the contents.

Files and modules:

- `java_int.dfy` (`JavaInt`): Java's 32-bit `int` and the wrap-around of `value++`.
- `counter.dfy` (`CounterCell`): `Counter`, its `next`, `reset` and the static `map` rendering.
  The two-argument Java constructor is the datatype constructor `Counter(name, value)` itself.
- `counter_pool.dfy` (`CounterPool`): the pool, its invariant (each counter is stored under its own name), `get`, `collect`, `resetAll`.
- `counters.dfy` (`Counters`): the service operations `get`, `next`, `reset`, `collect`, `resetAll`, and repeated `next`.
- `history.dfy` (`History`): arbitrary sequences of service operations; no operation removes a key.
- `wrappers.dfy` (`Wrappers`): `Option`.

`Counter.next` (Counter.java:19) returns the value held before the
increment. `Counters.next` (Counters.java:31-36), which `POST /counters/{id}`
calls, discards that value and answers with the record after the increment.
So the first `next` on a new key answers `{k, 1}` (`Counters.GetAfterFirstNext`).
The post-increment behaviour of `Counter.next` itself is proved in
`CounterCell.NextTimesCountsUp`.


## Model

| member | source | states |
|---|---|---|
| JavaInt.Wrap | m3-service/src/main/java/com/vnet/democloud/m3/Counter.java:7 | truncation to a Java `int`: the result is in range, congruent to the input modulo 2^32, and equal to it when the input already fits |
| JavaInt.Inc | m3-service/src/main/java/com/vnet/democloud/m3/Counter.java:19 | `value++` stores one more, except that the largest `int` wraps to the smallest |
| CounterCell.New | m3-service/src/main/java/com/vnet/democloud/m3/Counter.java:9-12 | the one-argument constructor gives the name and value 0 |
| CounterCell.Next | m3-service/src/main/java/com/vnet/democloud/m3/Counter.java:19 | `next()` returns the value held before the call, keeps the name, and stores one more (wrapping at the largest `int`) |
| CounterCell.Reset | m3-service/src/main/java/com/vnet/democloud/m3/Counter.java:20 | `reset()` keeps the name and leaves the value 0 whatever it was |
| CounterCell.ResetIdempotent | m3-service/src/main/java/com/vnet/democloud/m3/Counter.java:20 | resetting twice is the same as resetting once |
| CounterCell.ToMap | m3-service/src/main/java/com/vnet/democloud/m3/Counter.java:22-27 | `map` produces exactly the two entries `name` and `value`, carrying the counter's name and value |
| CounterCell.MapRoundTrip | m3-service/src/main/java/com/vnet/democloud/m3/Counter.java:22-27 | the record gives back exactly the counter it was made from |
| CounterCell.MapIsOnto | m3-service/src/main/java/com/vnet/democloud/m3/Counter.java:22-27 | any record that reads back as a counter is exactly that counter's rendering |
| CounterCell.MapInjective | m3-service/src/main/java/com/vnet/democloud/m3/Counter.java:22-27 | two counters have the same record if and only if they are equal |
| CounterCell.NextTimesCountsUp | m3-service/src/main/java/com/vnet/democloud/m3/Counter.java:19 | n calls of `next()` return the n consecutive values from the current one, in order, and leave the value n higher with the same name (no lost updates) |
| CounterPool.Get | m3-service/src/main/java/com/vnet/democloud/m3/Counters.java:55-62 | the key is present afterwards and the counter returned is the stored one; a present key changes nothing; a new key is added at 0 under its own name and nothing else changes; the invariant is kept |
| CounterPool.ResetAll | m3-service/src/main/java/com/vnet/democloud/m3/Counters.java:67-71 | the key set is unchanged, every counter keeps its name and has value 0, the invariant is kept |
| CounterPool.ResetAllIdempotent | m3-service/src/main/java/com/vnet/democloud/m3/Counters.java:67-71 | resetting everything twice is the same as once |
| CounterPool.Collect | m3-service/src/main/java/com/vnet/democloud/m3/Counters.java:63-66 | one record per key: as many records as keys, each key's record present, each record the rendering of (and decoding back to) the counter under some key, no two records equal |
| Counters.Get | m3-service/src/main/java/com/vnet/democloud/m3/Counters.java:21-24 | answers `{k, v}` with v the stored value (0 for a new key); a present key leaves the pool unchanged; a new key is added at 0; no other key is added, removed or changed |
| Counters.Next | m3-service/src/main/java/com/vnet/democloud/m3/Counters.java:31-36 | the stored value becomes old+1 (old is 0 for a new key; wraps at the largest `int`), the answer carries the new value, no other key is added, removed or changed |
| Counters.Reset | m3-service/src/main/java/com/vnet/democloud/m3/Counters.java:38-43 | the key is present with value 0 (created if absent), the answer is `{k, 0}`, no other key is added, removed or changed |
| Counters.Collect | m3-service/src/main/java/com/vnet/democloud/m3/Counters.java:26-29 | exactly one `{name, value}` record per key with the stored value, in no particular order |
| Counters.ResetAll | m3-service/src/main/java/com/vnet/democloud/m3/Counters.java:45-48 | the key set is unchanged and every key reads 0 |
| Counters.NextTimesCountsUp | m3-service/src/main/java/com/vnet/democloud/m3/Counters.java:31-36 | n successive `next` calls on a key raise its stored value by exactly n and keep the invariant |
| Counters.NextTimesReplies | m3-service/src/main/java/com/vnet/democloud/m3/Counters.java:31-36 | the answers of n successive `next` calls are `{k, v+1}` to `{k, v+n}`, in order |
| Counters.NextTimesFrame | m3-service/src/main/java/com/vnet/democloud/m3/Counters.java:31-36 | repeated `next` on one key adds, removes or changes no other key |
| Counters.NextTimesFromFresh | m3-service/src/main/java/com/vnet/democloud/m3/Counters.java:31-36 | from a new key, n calls of `next` leave the value at n, and the first answers `{k, 1}` |
| Counters.GetAfterReset | m3-service/src/main/java/com/vnet/democloud/m3/Counters.java:38-43 | right after `reset`, `get` answers `{k, 0}`; `reset` twice is `reset` once |
| Counters.GetAfterFirstNext | m3-service/src/main/java/com/vnet/democloud/m3/Counters.java:31-36 | the first `next` on a new key answers `{k, 1}` and a following `get` answers the same without changing the pool |
| History.Apply | m3-service/src/main/java/com/vnet/democloud/m3/Counters.java:21-48 | every service operation keeps the pool invariant |
| History.Run | m3-service/src/main/java/com/vnet/democloud/m3/Counters.java:53-72 | any sequence of service operations keeps the pool invariant |
| History.RunKeys | m3-service/src/main/java/com/vnet/democloud/m3/Counters.java:54-71 | no operation removes a key: after any run the keys are the earlier ones plus exactly the keys the run named |
| History.RunFromEmpty | m3-service/src/main/java/com/vnet/democloud/m3/Counters.java:54-61 | a service that starts with the empty pool holds, after any run, exactly the keys that run named |
| History.RunFrame | m3-service/src/main/java/com/vnet/democloud/m3/Counters.java:31-43 | a run that never names a key and never resets everything leaves that key's counter exactly as it was |

## Left out

- HTTP controllers and request mapping (`Application` classes of every service): delegation only. `History.Op` lists the service calls; `ResetAllOp` has no HTTP caller and is reachable only through the Java API.
- Circuit breaking, service discovery, Feign clients and the gateway proxy: supplied by framework annotations, with no logic in the repository's own code.
- `Items.getItem` and its fallback: a network fetch plus a timestamped fallback map.
- Logging calls in `Counters`: no effect on state or answers.
- Thread-level concurrency: the model assumes each service call is one atomic step. In the code, `Counters.get`, `next` and `reset` (Counters.java:21-43) are not `synchronized`. Each takes the pool lock, then the counter's lock, then renders the counter with no lock. So under concurrent calls, an answered record can include another caller's increment or reset (two concurrent `next` calls on a new key can both answer `{k, 2}`). The stored values lose no update, because `next` and `reset` lock the counter. The reply lemmas (`Counters.NextTimesReplies`, `Counters.NextTimesFromFresh`, `Counters.GetAfterFirstNext`, `Counters.GetAfterReset`) are about sequential calls only.
- `CounterPool.collect` iteration order: the backing `HashMap`'s order is not specified, so the model leaves it open and only fixes the contents.
- `CounterCell.NextTimesCountsUp`: stated only for runs that stay at or below the largest Java `int`; past it, the single-step wrap is stated by `CounterCell.Next`.
- `Counters.NextTimesCountsUp`: stated only while the stored value plus n stays at or below the largest Java `int`; past it, the single-step wrap is stated by `Counters.Next`.
- `Counters.NextTimesReplies`: stated only while the stored value plus n stays at or below the largest Java `int`, and only for sequential calls.
- `Counters.NextTimesFromFresh`: stated only for n at or below the largest Java `int`, and only for sequential calls.
