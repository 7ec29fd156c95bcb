/**
 The `coins` slice of the application's store: a per-coin cache of detail
 records, each stamped with the wall-clock time (milliseconds) of its fetch.
 A record is served only while it is at most `CACHE_DURATION` old; stale
 records stay in the store and are simply not served.

 The clock is not read here: every operation that needs the current time
 takes it as the parameter `now`.
 */
module CoinsSlice {

  datatype Option<T> = None | Some(value: T)

  /** A coin's detail record. The cache only looks at `id`; the remaining
      fields stand for the rest of the record, so that two records of the same
      coin can differ. The floating-point market figures are not modelled. */
  datatype CoinDetail = CoinDetail(
    id: string,
    symbol: string,
    name: string,
    marketCapRank: int,
    lastUpdated: string)

  /** Time-to-live of a cached record: 5 minutes in milliseconds. */
  const CACHE_DURATION: int := 5 * 60 * 1000

  /** The slice's state: the records and their fetch times, both keyed by coin id.
      Timestamps are JavaScript numbers produced by the clock; they are kept as
      integers of either sign. */
  datatype CoinsState = CoinsState(
    coinDetails: map<string, CoinDetail>,
    lastFetched: map<string, int>)

  /** The state the store starts from: both maps empty. */
  const InitialState: CoinsState := CoinsState(map[], map[])

  /** The invariant every reachable state keeps: the two maps have the same
      keys, and each record is filed under its own id. */
  ghost predicate Consistent(s: CoinsState)
  {
    && s.coinDetails.Keys == s.lastFetched.Keys
    && forall k :: k in s.coinDetails ==> s.coinDetails[k].id == k
  }

  /** A record fetched at `fetchedAt` is stale at `now` when its age is strictly
      greater than the time-to-live; an age of exactly `CACHE_DURATION` is still
      fresh. */
  predicate IsStale(fetchedAt: int, now: int)
  {
    now - fetchedAt > CACHE_DURATION
  }

  /** The state after the `setCoinDetail` reducer handles `payload` at time `now`:
      the record and its timestamp replace whatever was filed under `payload.id`,
      with no merge, and every other coin is untouched. */
  function Stored(s: CoinsState, payload: CoinDetail, now: int): (r: CoinsState)
    ensures payload.id in r.coinDetails && r.coinDetails[payload.id] == payload
    ensures payload.id in r.lastFetched && r.lastFetched[payload.id] == now
    ensures r.coinDetails.Keys == s.coinDetails.Keys + {payload.id}
    ensures r.lastFetched.Keys == s.lastFetched.Keys + {payload.id}
    ensures forall k :: k in s.coinDetails && k != payload.id ==> r.coinDetails[k] == s.coinDetails[k]
    ensures forall k :: k in s.lastFetched && k != payload.id ==> r.lastFetched[k] == s.lastFetched[k]
    ensures Consistent(s) ==> Consistent(r)
  {
    CoinsState(
      s.coinDetails[payload.id := payload],
      s.lastFetched[payload.id := now])
  }

  /** The `selectCoinDetail` selector: the record cached for `id`, provided both
      a record and a timestamp are present, the timestamp is not the falsy
      value 0, and the record is not stale at `now`; `None` otherwise. */
  function SelectCoinDetail(s: CoinsState, id: string, now: int): (r: Option<CoinDetail>)
    ensures r.Some? <==>
      && id in s.coinDetails
      && id in s.lastFetched
      && s.lastFetched[id] != 0
      && !IsStale(s.lastFetched[id], now)
    ensures r.Some? ==> r.value == s.coinDetails[id]
    ensures Consistent(s) && r.Some? ==> r.value.id == id
  {
    // A record is an object and therefore always truthy, so only its absence
    // fails the first test; a timestamp fails it when absent or 0.
    if id !in s.coinDetails || id !in s.lastFetched then None
    else if s.lastFetched[id] == 0 then None
    else if IsStale(s.lastFetched[id], now) then None
    else Some(s.coinDetails[id])
  }

  /** A dispatched `setCoinDetail` action together with the clock reading the
      reducer takes when it handles it. */
  datatype Action = SetCoinDetail(payload: CoinDetail, at: int)

  /** The state after the store handles `actions` in order, starting from `s`:
      the last action is applied to the state the earlier ones produced.
      Handling actions never removes an entry and keeps the invariant. */
  function Replay(s: CoinsState, actions: seq<Action>): (r: CoinsState)
    ensures s.coinDetails.Keys <= r.coinDetails.Keys
    ensures s.lastFetched.Keys <= r.lastFetched.Keys
    ensures Consistent(s) ==> Consistent(r)
    decreases |actions|
  {
    if actions == [] then s
    else
      var last := actions[|actions| - 1];
      Stored(Replay(s, actions[..|actions| - 1]), last.payload, last.at)
  }

  /** Reference definition: the last action in `actions` that wrote coin `id`. */
  function LastWrite(actions: seq<Action>, id: string): (w: Option<Action>)
    ensures w.Some? ==> w.value in actions && w.value.payload.id == id
    ensures w.Some? ==> exists i :: (0 <= i < |actions| && actions[i] == w.value &&
                                     forall j :: i < j < |actions| ==> actions[j].payload.id != id)
    ensures w.None? ==> forall a :: a in actions ==> a.payload.id != id
    decreases |actions|
  {
    if actions == [] then None
    else if actions[|actions| - 1].payload.id == id then Some(actions[|actions| - 1])
    else LastWrite(actions[..|actions| - 1], id)
  }

  /** The store holding the slice. Its two maps are updated in place by the
      reducer, as the source's draft-mutating reducer does. */
  class CoinsStore {
    var coinDetails: map<string, CoinDetail>
    var lastFetched: map<string, int>

    /** The slice's state as a value, the argument the selector is applied to. */
    function State(): (r: CoinsState)
      reads this
    {
      CoinsState(coinDetails, lastFetched)
    }

    ghost predicate Valid()
      reads this
    {
      Consistent(State())
    }

    /** A new store holds the initial state. */
    constructor ()
      ensures Valid()
      ensures State() == InitialState
    {
      coinDetails := map[];
      lastFetched := map[];
    }

    /** Handles a `setCoinDetail` action at time `now`: files `payload` and its
        timestamp under `payload.id` in both maps. */
    method SetCoinDetail(payload: CoinDetail, now: int)
      modifies this
      ensures State() == Stored(old(State()), payload, now)
      ensures old(Valid()) ==> Valid()
    {
      coinDetails := coinDetails[payload.id := payload];
      lastFetched := lastFetched[payload.id := now];
    }
  }
}
