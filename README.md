# Request-limit filter, modelled in Dafny

The repository's one piece of logic is `FilterRequest`, a servlet filter that
keeps one request count in a cache under the key `"requests"`. It admits
requests until that count reaches `MAX_REQUESTS_PER_HOUR` (3). For every
request it:

1. reads the count (a missing entry loads as 0);
2. decides "exceeded" when the count read is at least the maximum;
3. writes back the count plus one, whether the request was admitted or not.

If the cache load throws, the check fails open and reports "not exceeded".
On "exceeded", `doFilter` sets status 429 and writes a fixed message. In
both cases it then calls the rest of the filter chain. The cache evicts the
entry after an hour without access, which is the only reset.

The project has three modules:

- `RequestGate` (gate.dfy) gives one check (`Check`) and a run of successive
  checks (`Decisions`, `After`) as pure functions over the cache contents,
  then proves the lemmas about them.
- `Filter` (filter.dfy) holds the classes. `FilterRequest` has the mutable
  cache `requestCounts` and the maximum. `Response` has the status and the
  written body. `FilterChain` records each response it is handed.
  `FilterRequest`'s methods are proved against the functions of
  `RequestGate`. `FilterPreloaded` runs one request against a preloaded
  count, as the repository's tests do. `ServeFresh` runs a sequence of
  requests through one filter that starts with an empty cache.
- `JavaInt` (java_int.dfy) models the same check on Java's 32-bit `int`, for
  the finding below.

The maximum is a constructor argument (`FilterRequest.WithState`). The
source fixes it at 3 (a compile-time constant). The tests try to set it to 5
by reflection. Their expected outcomes (count 2 admitted, count equal to the
maximum and count 10 rejected) hold under either value, and `FilterPreloaded`
states them for every maximum.

Three facts about the code that the model keeps:

- `FilterRequest.java` arms no reset timer. Idle eviction
  (`FilterRequest.Expire`) is the only reset.
- The rejection message is sent with the literal `#{n}` placeholder
  (`RateLimitMessage`).
- A rejection does not short-circuit: `chain.doFilter` runs on both branches.

## Model

| member | source | states |
|---|---|---|
| `RequestGate.Read` | src/main/java/com/restservice/restservice/filter/FilterRequest.java:30-33 | The count a successful `get` yields: the cached value, or 0 from the loader when the key is absent. It has no contract of its own; `CheckSpec` and `EvictionReopens` state its effect on the decision. |
| `RequestGate.Check` | src/main/java/com/restservice/restservice/filter/FilterRequest.java:60-76 | The pure form of one `isMaximumRequestsPerHourExceeded` call: the decision and the cache after it. It has no contract of its own; `CheckSpec` specifies it, and `FilterRequest.IsMaximumRequestsPerHourExceeded` is proved equal to it. |
| `RequestGate.CheckSpec` | src/main/java/com/restservice/restservice/filter/FilterRequest.java:60-76 | One check: exceeded exactly when the load succeeds and the count read (0 if absent) is >= the maximum. A failed load leaves the cache unchanged. A successful load stores the old count + 1 under `"requests"`. No other key changes. |
| `RequestGate.CountAfter` | src/main/java/com/restservice/restservice/filter/FilterRequest.java:63-69 | After any run of checks, the bucket equals its start value plus the number of successful loads. Rejected calls are counted too. |
| `RequestGate.OnlyRequestsKey` | src/main/java/com/restservice/restservice/filter/FilterRequest.java:20-22 | After any run of checks, every key except `"requests"` is exactly as before. |
| `RequestGate.DecisionAt` | src/main/java/com/restservice/restservice/filter/FilterRequest.java:62-73 | Call i of a run is rejected if and only if its own load succeeds and the start count plus the earlier successful loads is >= the maximum. |
| `RequestGate.FreshBucket` | src/main/java/com/restservice/restservice/filter/FilterRequest.java:30-33 | From an empty or evicted bucket with every load succeeding, calls 1..max are admitted. Call max + 1 is the first one rejected. |
| `RequestGate.RejectionPersists` | src/main/java/com/restservice/restservice/filter/FilterRequest.java:65-69 | Once a call is rejected, every later call with a successful load is rejected too, because the count only grows. |
| `RequestGate.EvictionReopens` | src/main/java/com/restservice/restservice/filter/FilterRequest.java:27-33 | After the bucket is evicted (idle expiry), the next successful check is admitted for any maximum > 0 and leaves the count at 1. |
| `Filter.Response.constructor` | src/test/java/com/restservice/restservice/FilterRequestTest.java:62 | A fresh response has status 200 and an empty body. |
| `Filter.Response.SetStatus` | src/main/java/com/restservice/restservice/filter/FilterRequest.java:48 | Sets the status and leaves the body unchanged. |
| `Filter.Response.Write` | src/main/java/com/restservice/restservice/filter/FilterRequest.java:49 | Appends the text to the body and leaves the status unchanged. |
| `Filter.FilterChain.constructor` | src/test/java/com/restservice/restservice/FilterRequestTest.java:64 | A fresh chain has been handed no responses. |
| `Filter.FilterChain.DoFilter` | src/main/java/com/restservice/restservice/filter/FilterRequest.java:52 | Records exactly one more forwarding, of the response it is given. |
| `Filter.FilterRequest.constructor` | src/main/java/com/restservice/restservice/filter/FilterRequest.java:19-36 | The filter starts with maximum 3 and an empty cache. |
| `Filter.FilterRequest.WithState` | src/test/java/com/restservice/restservice/FilterRequestTest.java:55-58 | A filter with a given maximum and given cache contents, as the tests arrange it. |
| `Filter.FilterRequest.IsMaximumRequestsPerHourExceeded` | src/main/java/com/restservice/restservice/filter/FilterRequest.java:60-76 | Returns exceeded exactly when the load succeeds and the old count is >= the maximum. Stores old count + 1 under `"requests"` on a successful load and leaves the cache unchanged when the load throws. The new state equals `Check` of the old state. |
| `Filter.FilterRequest.DoFilter` | src/main/java/com/restservice/restservice/filter/FilterRequest.java:44-53 | Updates the cache as `Check` does. On exceeded, the status becomes 429 and the fixed message is appended to the body. Otherwise status and body are untouched. The chain gets the same response exactly once on both branches. |
| `Filter.FilterRequest.Expire` | src/main/java/com/restservice/restservice/filter/FilterRequest.java:27-28 | Idle expiry removes the `"requests"` entry and nothing else. |
| `Filter.FilterPreloaded` | src/test/java/com/restservice/restservice/FilterRequestTest.java:67-98 | With a preloaded count, one request gets 429 and the message exactly when the count is >= the maximum (equal and greater both reject). Otherwise it gets 200 and an empty body. The chain runs once. |
| `Filter.ServeFresh` | src/main/java/com/restservice/restservice/filter/FilterRequest.java:44-76 | A run of requests through a filter with an empty cache answers request i with 429 if and only if its load succeeds and at least max earlier loads succeeded. Otherwise the answer is 200. |
| `JavaInt.Wrap` | src/main/java/com/restservice/restservice/filter/FilterRequest.java:67 | Java int arithmetic: the result is congruent to the exact value modulo 2^32, and equal to it when that value fits in an int. |
| `JavaInt.Check32` | src/main/java/com/restservice/restservice/filter/FilterRequest.java:63-69 | One successful check on Java `int`: compare the int read, then store `requests + 1` in int arithmetic. It has no contract of its own; `Check32AgreesBelowMaxValue` and `WrapReopensGate` specify it. |
| `JavaInt.Count32` | src/main/java/com/restservice/restservice/filter/FilterRequest.java:67-69 | The int count after n successful checks. It has no contract of its own; `Count32Exact` specifies it up to Integer.MAX_VALUE. |
| `JavaInt.Check32AgreesBelowMaxValue` | src/main/java/com/restservice/restservice/filter/FilterRequest.java:63-69 | Below Integer.MAX_VALUE the int check and the unbounded check agree on the decision and on the count stored. |
| `JavaInt.Count32Exact` | src/main/java/com/restservice/restservice/filter/FilterRequest.java:67-69 | Up to Integer.MAX_VALUE, the int count after n successful checks is exactly start + n. |
| `JavaInt.WrapReopensGate` | src/main/java/com/restservice/restservice/filter/FilterRequest.java:63-69 | From an empty bucket the int count reaches Integer.MAX_VALUE. That call is rejected and stores Integer.MIN_VALUE, and the next call is admitted. |

## Left out

- Filter.FilterRequest.IsMaximumRequestsPerHourExceeded: the count is an unbounded `nat` here, as it is throughout `RequestGate` and `Filter`. At a stored count of 2147483647 the method stores 2147483648, where the Java code stores Integer.MIN_VALUE. `JavaInt` models the 32-bit behaviour, and "## Findings" records its effect.
- Real time: the one-hour `expireAfterAccess` is modelled only as an explicit `Expire` event. The Guava cache's clock is not part of this model.
- Concurrency: the `get` then `put` is not atomic, so concurrent requests can lose increments. The model is single-threaded and sequential.
- `init` and `destroy` are empty, and the Spring `@Component` wiring and the cast to `HttpServletResponse` are plumbing. None of them is modelled.
- `IOException` from the response writer and `ServletException` from the chain are not modelled. Writing is appending to `body`.
- Downstream behaviour of the chain is not part of this model. `FilterChain` only records the responses it receives.
- The `ExecutionException` path is an input flag (`loadFails`). The source's loader returns 0 and cannot itself throw. The flag may be set on any call, even where the key is already cached and the source could not fail; every lemma over a run holds for all such flag sequences, the reachable ones included.
- The Mockito mocks and the reflection write of the maximum in the tests are not modelled. Their expected outcomes are stated by `FilterPreloaded`.
- The request object is ignored by the filter, so it is not modelled.

## Findings

| source | as written | input that shows it | evidently intended | confidence | as-written member | corrected member |
|---|---|---|---|---|---|---|
| src/main/java/com/restservice/restservice/filter/FilterRequest.java:63-69 | The count is a Java `int`, and `requests++` wraps from 2147483647 to -2147483648. The wrapped value is stored, and a negative count reads as "not exceeded". | 2147483649 consecutive requests, never an hour apart: request 2147483648 is rejected and stores -2147483648, and request 2147483649 is admitted. With the maximum 3, the 2^31 + 2 requests after it are admitted too. | The count does not wrap, so a rejected bucket stays rejected until it is evicted. | not executed | `JavaInt.WrapReopensGate` | `RequestGate.RejectionPersists` |
