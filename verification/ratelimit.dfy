/** The per-client request limiter of `src/botnet.go.old/internal/api/ratelimit.go`
    and the post-creation middleware built on it. A client's window starts
    at its last allowed request; `now` replaces `time.Now()`. */
module RateLimit {
  import GoTime

  datatype ClientState = ClientState(lastRequest: int, count: int)

  datatype Limiter = Limiter(clients: map<string, ClientState>, interval: int, maxReq: int)

  datatype Decision = Decision(allowed: bool, limiter: Limiter)

  /** `NewRateLimiter`. */
  function NewLimiter(interval: int, maxRequests: int): (l: Limiter)
    ensures l.clients == map[] && l.interval == interval && l.maxReq == maxRequests
  {
    Limiter(map[], interval, maxRequests)
  }

  /** `Allow`: a new client, or one whose last allowed request is at least
      an interval old, is allowed with a count of 1; otherwise the request is
      allowed and counted while the count is below the maximum. A denied
      request changes nothing, and no other client is ever touched. */
  function Allow(l: Limiter, clientId: string, now: int): (r: Decision)
    ensures r.limiter.interval == l.interval && r.limiter.maxReq == l.maxReq
    ensures r.limiter.clients.Keys == l.clients.Keys + {clientId}
    ensures forall c :: c in l.clients && c != clientId ==> r.limiter.clients[c] == l.clients[c]
    ensures clientId !in l.clients ==> r.allowed && r.limiter.clients[clientId] == ClientState(now, 1)
    ensures clientId in l.clients && now - l.clients[clientId].lastRequest >= l.interval ==>
      r.allowed && r.limiter.clients[clientId] == ClientState(now, 1)
    ensures clientId in l.clients && now - l.clients[clientId].lastRequest < l.interval ==>
      (r.allowed <==> l.clients[clientId].count < l.maxReq)
    ensures clientId in l.clients && now - l.clients[clientId].lastRequest < l.interval && r.allowed ==>
      r.limiter.clients[clientId] == ClientState(now, l.clients[clientId].count + 1)
    ensures !r.allowed ==> r.limiter == l
  {
    if clientId !in l.clients then
      Decision(true, l.(clients := l.clients[clientId := ClientState(now, 1)]))
    else
      var c := l.clients[clientId];
      if now - c.lastRequest >= l.interval then
        Decision(true, l.(clients := l.clients[clientId := ClientState(now, 1)]))
      else if c.count < l.maxReq then
        Decision(true, l.(clients := l.clients[clientId := ClientState(now, c.count + 1)]))
      else Decision(false, l)
  }

  /** Every client's count is between 1 and the maximum. */
  predicate WithinLimit(l: Limiter) {
    forall c :: c in l.clients ==> 1 <= l.clients[c].count <= l.maxReq
  }

  /** With a maximum of at least one request, `Allow` keeps every count
      within the maximum. */
  lemma AllowKeepsWithinLimit(l: Limiter, clientId: string, now: int)
    requires l.maxReq >= 1 && WithinLimit(l)
    ensures WithinLimit(Allow(l, clientId, now).limiter)
  {
  }

  /** A full window turns requests away until an interval has passed since
      the last allowed one. */
  lemma FullWindowDenies(l: Limiter, clientId: string, now: int)
    requires clientId in l.clients && l.clients[clientId].count >= l.maxReq
    ensures !Allow(l, clientId, now).allowed <==> now - l.clients[clientId].lastRequest < l.interval
  {
  }

  /** The hourly sweep: exactly the clients idle for more than an hour go. */
  function Cleanup(l: Limiter, now: int): (r: Limiter)
    ensures r.interval == l.interval && r.maxReq == l.maxReq
    ensures forall c :: c in r.clients <==> c in l.clients && now - l.clients[c].lastRequest <= GoTime.Hour
    ensures forall c :: c in r.clients ==> r.clients[c] == l.clients[c]
  {
    l.(clients := map c | c in l.clients && now - l.clients[c].lastRequest <= GoTime.Hour :: l.clients[c])
  }

  /** A swept client starts afresh: its next request is allowed. */
  lemma CleanupForgets(l: Limiter, clientId: string, now: int, later: int)
    requires clientId in l.clients && now - l.clients[clientId].lastRequest > GoTime.Hour
    ensures Allow(Cleanup(l, now), clientId, later).allowed
  {
  }

  // ---------------------------------------------------------------------------
  // Post creation

  /** What the JWT middleware left in the request context: nothing, a value
      of another type, or the user's claims. */
  datatype Claims = NoClaims | NotUserClaims | UserClaims(gitHubId: string)

  datatype Gate = Pass | Reject(status: int, error: string)

  datatype Gated = Gated(gate: Gate, limiter: Limiter)

  /** `PostRateLimit`'s limiter: one post per minute. */
  function PostLimiter(): (l: Limiter)
    ensures l.clients == map[] && l.interval == GoTime.Minute && l.maxReq == 1
  {
    NewLimiter(GoTime.Minute, 1)
  }

  /** `PostRateLimit`'s handler: 401 without usable claims, 429 when the
      user's GitHub ID has posted within the last minute, else pass. */
  function PostRateLimit(l: Limiter, claims: Claims, now: int): (r: Gated)
    ensures claims.NoClaims? ==> r == Gated(Reject(401, "Authentication required"), l)
    ensures claims.NotUserClaims? ==> r == Gated(Reject(401, "Invalid authentication"), l)
    ensures claims.UserClaims? ==>
      var d := Allow(l, claims.gitHubId, now);
      r.limiter == d.limiter && (r.gate.Pass? <==> d.allowed)
      && (!d.allowed ==> r.gate == Reject(429, "Rate limit exceeded"))
  {
    match claims
    case NoClaims => Gated(Reject(401, "Authentication required"), l)
    case NotUserClaims => Gated(Reject(401, "Invalid authentication"), l)
    case UserClaims(id) =>
      var d := Allow(l, id, now);
      if d.allowed then Gated(Pass, d.limiter) else Gated(Reject(429, "Rate limit exceeded"), d.limiter)
  }

  /** After a post passes, the same user's next post passes exactly when a
      full minute has gone by; other users are not held back. */
  lemma OnePostPerMinute(l: Limiter, id: string, other: string, t: int, later: int)
    requires l.interval == GoTime.Minute && l.maxReq == 1 && WithinLimit(l)
    requires PostRateLimit(l, UserClaims(id), t).gate.Pass?
    requires other != id && other !in l.clients
    ensures var l2 := PostRateLimit(l, UserClaims(id), t).limiter;
      && (PostRateLimit(l2, UserClaims(id), later).gate.Pass? <==> later - t >= GoTime.Minute)
      && PostRateLimit(l2, UserClaims(other), later).gate.Pass?
  {
  }
}
