/**
 What the coin-detail cache promises its readers: read-after-write within the
 time-to-live, expiry after it, the inclusive boundary, misses on absent or
 zero-stamped entries, overwrite without merge, and independence of coins.
 */
module CacheProperties {
  import opened CoinsSlice

  /** From the initial state every coin misses, at every time. */
  lemma InitialStateMisses(id: string, now: int)
    ensures Consistent(InitialState)
    ensures SelectCoinDetail(InitialState, id, now) == None
  {
  }

  /** A record written at a nonzero time `t` is served at every `now` up to and
      including `t + CACHE_DURATION`. */
  lemma ReadAfterWrite(s: CoinsState, d: CoinDetail, t: int, now: int)
    requires t != 0 && now <= t + CACHE_DURATION
    ensures SelectCoinDetail(Stored(s, d, t), d.id, now) == Some(d)
  {
  }

  /** Once more than `CACHE_DURATION` has passed since its timestamp, a record
      that is still in the store is no longer served. */
  lemma Expiry(s: CoinsState, id: string, now: int)
    requires id in s.coinDetails && id in s.lastFetched
    requires now - s.lastFetched[id] > CACHE_DURATION
    ensures SelectCoinDetail(s, id, now) == None
  {
  }

  /** After a write at `t`, the record is served exactly at the times
      `now <= t + CACHE_DURATION` (for a nonzero `t`). */
  lemma ExpiryAfterWrite(s: CoinsState, d: CoinDetail, t: int, now: int)
    ensures SelectCoinDetail(Stored(s, d, t), d.id, now) == Some(d)
        <==> t != 0 && now <= t + CACHE_DURATION
  {
  }

  /** The boundary is inclusive: at an age of exactly 5 minutes the record is
      served, one millisecond later it is not. */
  lemma InclusiveBoundary(s: CoinsState, d: CoinDetail, t: int)
    requires t != 0
    ensures SelectCoinDetail(Stored(s, d, t), d.id, t + 300000) == Some(d)
    ensures SelectCoinDetail(Stored(s, d, t), d.id, t + 300001) == None
  {
  }

  /** A coin missing from either map misses. */
  lemma MissingEntryMisses(s: CoinsState, id: string, now: int)
    requires id !in s.coinDetails || id !in s.lastFetched
    ensures SelectCoinDetail(s, id, now) == None
  {
  }

  /** A timestamp of 0 is falsy and reads as absent, so a record written at time
      0 is never served. */
  lemma ZeroTimestampMisses(s: CoinsState, d: CoinDetail, now: int)
    ensures SelectCoinDetail(Stored(s, d, 0), d.id, now) == None
  {
  }

  /** A second write of the same coin fully replaces the first: record and
      timestamp both come from the second write. */
  lemma Overwrite(s: CoinsState, d1: CoinDetail, t1: int, d2: CoinDetail, t2: int)
    requires d1.id == d2.id
    ensures Stored(Stored(s, d1, t1), d2, t2) == Stored(s, d2, t2)
  {
  }

  /** Writing one coin changes nothing any other coin's reader can observe. */
  lemma OtherCoinsUnaffected(s: CoinsState, d: CoinDetail, t: int, id: string, now: int)
    requires id != d.id
    ensures SelectCoinDetail(Stored(s, d, t), id, now) == SelectCoinDetail(s, id, now)
  {
  }

  /** Staleness is permanent until the next write: a miss at `now` is a miss at
      every later time. */
  lemma MissStaysMiss(s: CoinsState, id: string, now: int, later: int)
    requires now <= later
    requires SelectCoinDetail(s, id, now) == None
    ensures SelectCoinDetail(s, id, later) == None
  {
  }

  /** Where the store's entry for `id` comes from after a run of actions: the
      last action that wrote `id`, or, if there is none, the starting state. */
  lemma {:induction false} ReplayLookup(s: CoinsState, actions: seq<Action>, id: string)
    ensures match LastWrite(actions, id)
      case Some(w) =>
        && id in Replay(s, actions).coinDetails
        && Replay(s, actions).coinDetails[id] == w.payload
        && id in Replay(s, actions).lastFetched
        && Replay(s, actions).lastFetched[id] == w.at
      case None =>
        && (id in Replay(s, actions).coinDetails <==> id in s.coinDetails)
        && (id in s.coinDetails ==> Replay(s, actions).coinDetails[id] == s.coinDetails[id])
        && (id in Replay(s, actions).lastFetched <==> id in s.lastFetched)
        && (id in s.lastFetched ==> Replay(s, actions).lastFetched[id] == s.lastFetched[id])
    decreases |actions|
  {
    if actions != [] {
      ReplayLookup(s, actions[..|actions| - 1], id);
    }
  }

  /** What a reader sees after a run of actions from the initial state: the
      record of the last write of `id`, if that write's timestamp is nonzero
      and at most `CACHE_DURATION` old at `now`; a miss otherwise. */
  lemma SelectAfterReplay(actions: seq<Action>, id: string, now: int)
    ensures SelectCoinDetail(Replay(InitialState, actions), id, now) ==
      match LastWrite(actions, id)
      case None => None
      case Some(w) => if w.at == 0 || IsStale(w.at, now) then None else Some(w.payload)
  {
    ReplayLookup(InitialState, actions, id);
  }

  /** Every state the store reaches from the initial state keeps both maps on
      the same key set, with each record filed under its own id. */
  lemma ReachableConsistent(actions: seq<Action>)
    ensures Consistent(Replay(InitialState, actions))
  {
  }

  /** On a consistent state, a miss happens exactly when at least one of these
      holds: the id is absent, its timestamp is 0, or it is stale. */
  lemma MissOnConsistent(s: CoinsState, id: string, now: int)
    requires Consistent(s)
    ensures SelectCoinDetail(s, id, now) == None <==>
      (id !in s.coinDetails || s.lastFetched[id] == 0 || IsStale(s.lastFetched[id], now))
  {
  }
}
