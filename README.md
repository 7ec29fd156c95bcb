# Coin-detail cache of the Crypto-App store

The app keeps a per-coin cache of detail records in the `coins` slice of its Redux
store. The slice's state holds two maps keyed by coin id. `coinDetails` holds the
last fetched detail record. `lastFetched` holds the millisecond timestamp of that
fetch.

- The `setCoinDetail` reducer writes the payload and the current time under
  `payload.id` in both maps. It overwrites what was there and does no merge.
- The `selectCoinDetail` selector returns the record only when both entries exist,
  the timestamp is truthy (not 0), and `now - lastFetched <= CACHE_DURATION`.
  `CACHE_DURATION` is 300000 ms, or 5 minutes. In every other case it returns
  null.
- Invalidation is lazy. Stale entries stay in the maps and are simply not served.

The model has two modules:

- `CoinsSlice` (`coins_slice.dfy`) holds the data model. It defines the state value
  `CoinsState` and the reducer's effect on it, `Stored`, and the selector
  `SelectCoinDetail`. `Replay` folds a run of dispatched `setCoinDetail` actions,
  and `LastWrite` gives an independent reference for what a run leaves behind.
  The class `CoinsStore` updates its two map fields in place, as the
  draft-mutating reducer does.
- `CacheProperties` (`cache_properties.dfy`) holds the properties readers rely on.

The clock is not modelled. `Date.now()` becomes an explicit `now` parameter of the
reducer and the selector. Timestamps are integers of either sign. JavaScript's
falsy test `!lastFetched` becomes the test `== 0`. A detail record is an object
and is always truthy, so `!coinDetail` fails only when the record is missing.

Some behaviours follow from the code and are stated as the code has them:

- A record written at time 0 is never served.
- A timestamp later than `now` gives a negative age. Such a record is served, so
  read-after-write holds for every `now <= t + CACHE_DURATION`, with no lower
  bound.

## Model

| member | source | states |
|---|---|---|
| CoinsSlice.Stored | store/slices/coinsSlice.ts:20-23 | After `setCoinDetail`, the payload and `now` are filed under `payload.id`. The key sets grow by exactly that id, every other coin keeps its record and timestamp, and the key-set invariant is preserved. |
| CoinsSlice.SelectCoinDetail | store/slices/coinsSlice.ts:29-37 | A record is served iff both entries exist, the timestamp is nonzero and the age is at most `CACHE_DURATION`. What is served is the stored record, and on a consistent state it is the record of the requested coin. |
| CoinsSlice.Replay | store/slices/coinsSlice.ts:16-25 | Handling any run of `setCoinDetail` actions never removes an entry from either map (lazy invalidation) and keeps the key-set invariant. |
| CoinsSlice.LastWrite | store/slices/coinsSlice.ts:20-22 | The reference for the entry a run of writes leaves behind. A result is an action of the run that writes the id, at a position after which no action writes the id, so it is the last such write. No result means no action wrote the id. |
| CoinsSlice.CoinsStore.constructor | store/slices/coinsSlice.ts:9-12 | A new store starts from the initial state, both maps empty, which satisfies the invariant. |
| CoinsSlice.CoinsStore.SetCoinDetail | store/slices/coinsSlice.ts:20-23 | The in-place update leaves the store in state `Stored(old state, payload, now)` and preserves the invariant. |
| CacheProperties.InitialStateMisses | store/slices/coinsSlice.ts:9-12 | From the initial state every coin misses at every time, and the initial state is consistent. |
| CacheProperties.ReadAfterWrite | store/slices/coinsSlice.ts:20-36 | After a write of `d` at a nonzero time `t`, selecting `d.id` at any `now <= t + 300000` returns `d`. |
| CacheProperties.Expiry | store/slices/coinsSlice.ts:35-36 | A record present in both maps whose age exceeds `CACHE_DURATION` is not served. |
| CacheProperties.ExpiryAfterWrite | store/slices/coinsSlice.ts:20-36 | After a write at `t`, the record is served exactly when `t != 0` and `now <= t + CACHE_DURATION`. |
| CacheProperties.InclusiveBoundary | store/slices/coinsSlice.ts:14-35 | At an age of exactly 300000 ms the record is still served. At 300001 ms it is not. |
| CacheProperties.MissingEntryMisses | store/slices/coinsSlice.ts:33 | A coin missing from either map misses. |
| CacheProperties.ZeroTimestampMisses | store/slices/coinsSlice.ts:33 | A timestamp of 0 is falsy, so a record written at time 0 is never served. |
| CacheProperties.Overwrite | store/slices/coinsSlice.ts:21-22 | A second write of the same coin gives the same state as that write alone. The record and the timestamp both come from the second write, with no merge. |
| CacheProperties.OtherCoinsUnaffected | store/slices/coinsSlice.ts:20-23 | Writing one coin leaves the selector's answer for every other coin unchanged, at every time. |
| CacheProperties.MissStaysMiss | store/slices/coinsSlice.ts:33-36 | Without a new write, a miss at `now` is a miss at every later time. |
| CacheProperties.ReplayLookup | store/slices/coinsSlice.ts:20-22 | After any run of writes, the entry for an id holds the record and timestamp of the last write of that id. If no write touched the id, the entry is exactly what the starting state had. |
| CacheProperties.SelectAfterReplay | store/slices/coinsSlice.ts:9-37 | From the initial state, the selector's answer after any run of writes is the last write's record if its timestamp is nonzero and not stale, and a miss otherwise. |
| CacheProperties.ReachableConsistent | store/slices/coinsSlice.ts:9-22 | Every state reachable from the initial state has the same key set in both maps, and each record is filed under its own id. |
| CacheProperties.MissOnConsistent | store/slices/coinsSlice.ts:33-36 | On a consistent state, a miss happens exactly when at least one of these holds: the id is absent, its timestamp is 0, or it is stale. |

## Left out

- The clock (`Date.now()`) is not modelled. It is the `now` parameter of the reducer and the selector.
- Redux Toolkit machinery is not modelled. This covers `createSlice`, Immer drafts and the action creators in `store/slices/coinsSlice.ts`, and `configureStore` in `store/store.ts`. Only the resulting state transition is modelled.
- JavaScript property lookup on a plain object also finds inherited keys such as `constructor`. The model treats the maps as containing only the keys written to them. For an id such as `constructor` or `__proto__`, both lookups find a truthy inherited value. The age `Date.now() - lastFetched` is then NaN, and `NaN > CACHE_DURATION` is false. So the selector returns the inherited object, where the model returns `None`.
- `CoinDetail` keeps only `id` and a few other fields, one of them the integer market-cap rank. Its floating-point market figures do not affect the cache.
- `services/api.ts` is not part of this model. It holds the HTTP fetches and JSON parsing, which are network I/O.
- The detail screen's fetch orchestration in `app/coin/[id].tsx` is not part of this model. It consults the selector and dispatches after a fetch. It depends on React effects and asynchronous fetches.
- The list screen's polling and refresh are not part of this model. They depend on timers, focus hooks and asynchronous races.
- The UI components, theme context and navigation layouts are not part of this model.
