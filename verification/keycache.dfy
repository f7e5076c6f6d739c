/** The public-key cache of `internal/crypto/publickeycache.go`: keys of
    remote agents with the time they were cached and a time to live in whole
    seconds. `now` replaces `time.Now()` and `time.Since`; the neighbors'
    answers to a key request are a parameter. */
module KeyCache {
  import opened Wrappers
  import GoInt
  import GoTime

  datatype CachedKey = CachedKey(agentId: string, publicKey: string, nodeId: string, cachedAt: int, ttl: int)

  type Cache = map<string, CachedKey>

  /** Strictly more than the time to live has passed since caching: an age
      of exactly the TTL is still valid. */
  predicate Expired(c: CachedKey, now: int) {
    now - c.cachedAt > c.ttl * GoTime.Second
  }

  /** A lookup's answer and the cache it leaves. */
  datatype Lookup = Lookup(key: Option<string>, cache: Cache)

  /** `Get`: the key of a live entry; an expired entry is deleted and
      reported missing. */
  function Get(cache: Cache, agentId: string, now: int): (r: Lookup)
    ensures agentId !in cache ==> r == Lookup(None, cache)
    ensures agentId in cache ==> (r.key.Some? <==> !Expired(cache[agentId], now))
    ensures r.key.Some? ==> r.key.value == cache[agentId].publicKey && r.cache == cache
    ensures agentId in cache && r.key.None? ==> r.cache == cache - {agentId}
  {
    if agentId !in cache then Lookup(None, cache)
    else if Expired(cache[agentId], now) then Lookup(None, cache - {agentId})
    else Lookup(Some(cache[agentId].publicKey), cache)
  }

  /** `int64(ttl.Seconds())`: the cache's default TTL in whole seconds. */
  function TtlSeconds(ttl: int): int {
    GoInt.Quo(ttl, GoTime.Second)
  }

  /** `Set`: the agent's entry is (re)written, cached now with the cache's
      default TTL; no other entry changes. */
  function Set(cache: Cache, ttl: int, agentId: string, publicKey: string, nodeId: string, now: int): (r: Cache)
    ensures r.Keys == cache.Keys + {agentId}
    ensures forall a :: a in cache && a != agentId ==> r[a] == cache[a]
    ensures r[agentId].publicKey == publicKey && r[agentId].nodeId == nodeId && r[agentId].agentId == agentId
    ensures r[agentId].cachedAt == now && r[agentId].ttl == TtlSeconds(ttl)
  {
    cache[agentId := CachedKey(agentId, publicKey, nodeId, now, TtlSeconds(ttl))]
  }

  /** `Delete`: only that agent's entry goes. */
  function Delete(cache: Cache, agentId: string): (r: Cache)
    ensures r.Keys == cache.Keys - {agentId}
    ensures forall a :: a in r ==> r[a] == cache[a]
  {
    cache - {agentId}
  }

  /** `Clear`. */
  function Clear(): (r: Cache)
    ensures |r| == 0
  {
    map[]
  }

  /** `Size`: the number of entries, expired ones included. */
  function Size(cache: Cache): nat {
    |cache|
  }

  /** `removeExpired`: exactly the expired entries go. */
  function RemoveExpired(cache: Cache, now: int): (r: Cache)
    ensures forall a :: a in r <==> a in cache && !Expired(cache[a], now)
    ensures forall a :: a in r ==> r[a] == cache[a]
  {
    map a | a in cache && !Expired(cache[a], now) :: cache[a]
  }

  /** A key read back within its time to live is the key that was set,
      up to and including the last nanosecond of the TTL. */
  lemma SetThenGet(cache: Cache, ttl: int, agentId: string, publicKey: string, nodeId: string, t: int, now: int)
    requires now - t <= TtlSeconds(ttl) * GoTime.Second
    ensures Get(Set(cache, ttl, agentId, publicKey, nodeId, t), agentId, now).key == Some(publicKey)
  {
  }

  /** Setting grows the cache only for an agent it did not hold. */
  lemma SetSize(cache: Cache, ttl: int, agentId: string, publicKey: string, nodeId: string, now: int)
    ensures Size(Set(cache, ttl, agentId, publicKey, nodeId, now)) == Size(cache) + (if agentId in cache then 0 else 1)
  {
  }

  /** After a delete the agent is missing; after a clear the cache is empty. */
  lemma DeleteThenGet(cache: Cache, agentId: string, now: int)
    ensures Get(Delete(cache, agentId), agentId, now).key == None
    ensures Size(Clear()) == 0
  {
  }

  /** Sweeping expired entries changes no lookup's answer. */
  lemma RemoveExpiredKeepsAnswers(cache: Cache, agentId: string, now: int)
    ensures Get(RemoveExpired(cache, now), agentId, now).key == Get(cache, agentId, now).key
  {
  }

  /** A neighbor's answer to a key request: the key and the agent's node. */
  datatype NeighborAnswer = NeighborAnswer(publicKey: string, nodeId: string)

  datatype FetchError = NoNeighborAnswered

  datatype Fetched = Fetched(result: Result<string, FetchError>, cache: Cache)

  /** `FetchPublicKey`: a live cached key is returned without asking any
      neighbor; otherwise the first neighbor's answer is cached and
      returned, and when none answers the fetch fails. `answers[i]` is what
      the i-th neighbor's request produced. */
  function FetchPublicKey(cache: Cache, ttl: int, agentId: string, answers: seq<Option<NeighborAnswer>>, now: int)
    : (r: Fetched)
    ensures Get(cache, agentId, now).key.Some? ==>
      r == Fetched(Ok(Get(cache, agentId, now).key.value), cache)
    ensures Get(cache, agentId, now).key.None? && FirstSome(answers).Some? ==>
      var a := FirstSome(answers).value;
      r.result == Ok(a.publicKey) && r.cache == Set(Get(cache, agentId, now).cache, ttl, agentId, a.publicKey, a.nodeId, now)
    ensures Get(cache, agentId, now).key.None? && FirstSome(answers).None? ==>
      r.result == Err(NoNeighborAnswered) && agentId !in r.cache
  {
    var lookup := Get(cache, agentId, now);
    if lookup.key.Some? then Fetched(Ok(lookup.key.value), cache)
    else match FirstSome(answers)
      case None => Fetched(Err(NoNeighborAnswered), lookup.cache)
      case Some(a) => Fetched(Ok(a.publicKey), Set(lookup.cache, ttl, agentId, a.publicKey, a.nodeId, now))
  }

  /** A fetched key is served from the cache by the next fetch within its
      time to live, whatever the neighbors answer then. */
  lemma FetchThenHit(cache: Cache, ttl: int, agentId: string, answers: seq<Option<NeighborAnswer>>,
                     later: seq<Option<NeighborAnswer>>, t: int, now: int)
    requires FetchPublicKey(cache, ttl, agentId, answers, t).result.Ok?
    requires t <= now && now - t <= TtlSeconds(ttl) * GoTime.Second
    requires Get(cache, agentId, t).key.Some? ==> now - cache[agentId].cachedAt <= cache[agentId].ttl * GoTime.Second
    ensures var first := FetchPublicKey(cache, ttl, agentId, answers, t);
      FetchPublicKey(first.cache, ttl, agentId, later, now).result == first.result
  {
  }
}
