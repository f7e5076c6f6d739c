/** The node service of `internal/node/service.go`: the capped neighbor
    table, the last-sync and network-size estimates, the challenge
    lifecycle, the agent-location cache, neighbor discovery and the DNS
    records a node should publish. Pings and DNS/manifest fetches are
    parameters; map iteration order is an `Iteration.Enumerates` parameter. */
module NodeService {
  import opened Wrappers
  import opened Types
  import opened Iteration
  import GoTime
  import Strconv
  import Storage
  import Discovery

  // ---------------------------------------------------------------------------
  // Neighbor table

  const MaxNeighbors: int := 8

  /** A neighbor node; the HTTP client it carries is left out. */
  datatype Neighbor = Neighbor(id: string, domain: string, url: string, lastSeen: int, status: string)

  /** The neighbor table, keyed by the domain (or node ID) it was added under. */
  type Table = map<string, Neighbor>

  datatype NeighborError = NeighborLimitReached | ConnectFailed

  /** `generateNeighborID`: "neighbor-<domain>-<unix seconds>". */
  function NeighborId(domain: string, now: int): string {
    "neighbor-" + domain + "-" + Strconv.Itoa(GoTime.Unix(now))
  }

  /** `AddNeighbor`, with `pingOk` the outcome of the connection test: a
      known domain is accepted as is; a full table and a failed ping are
      errors; otherwise exactly the new, connected entry is added. */
  function AddNeighbor(table: Table, domain: string, url: string, now: int, pingOk: bool): (r: Result<Table, NeighborError>)
    ensures domain in table ==> r == Ok(table)
    ensures domain !in table && |table| >= MaxNeighbors ==> r == Err(NeighborLimitReached)
    ensures domain !in table && |table| < MaxNeighbors && !pingOk ==> r == Err(ConnectFailed)
    ensures r.Ok? <==> domain in table || (|table| < MaxNeighbors && pingOk)
    ensures r.Ok? && domain !in table ==>
      && r.value.Keys == table.Keys + {domain}
      && (forall d :: d in table ==> r.value[d] == table[d])
      && r.value[domain] == Neighbor(NeighborId(domain, now), domain, url, now, "connected")
    ensures r.Ok? ==> |r.value| <= if |table| < MaxNeighbors then MaxNeighbors else |table|
  {
    if domain in table then Ok(table)
    else if |table| >= MaxNeighbors then Err(NeighborLimitReached)
    else if !pingOk then Err(ConnectFailed)
    else Ok(table[domain := Neighbor(NeighborId(domain, now), domain, url, now, "connected")])
  }

  /** A table within the cap stays within it, whatever is added. */
  lemma AddNeighborKeepsCap(table: Table, domain: string, url: string, now: int, pingOk: bool)
    requires |table| <= MaxNeighbors
    ensures var r := AddNeighbor(table, domain, url, now, pingOk);
      r.Ok? ==> |r.value| <= MaxNeighbors
  {
  }

  /** `RemoveNeighbor`: only that domain goes; an absent one is a no-op. */
  function RemoveNeighbor(table: Table, domain: string): (r: Table)
    ensures domain !in r && r.Keys == table.Keys - {domain}
    ensures forall d :: d in r ==> r[d] == table[d]
    ensures domain !in table ==> r == table
  {
    table - {domain}
  }

  /** Adding and then removing a new neighbor restores the table. */
  lemma AddThenRemove(table: Table, domain: string, url: string, now: int)
    requires domain !in table && |table| < MaxNeighbors
    ensures RemoveNeighbor(AddNeighbor(table, domain, url, now, true).value, domain) == table
  {
  }

  /** `GetNeighbor`. */
  function GetNeighbor(table: Table, key: string): (r: Option<Neighbor>)
    ensures r.Some? <==> key in table
    ensures r.Some? ==> r.value == table[key]
  {
    if key in table then Some(table[key]) else None
  }

  /** `markNeighborHealthy`: active and seen now. */
  function MarkHealthy(n: Neighbor, now: int): (r: Neighbor)
    ensures r.status == "active" && r.lastSeen == now
    ensures r.(status := n.status, lastSeen := n.lastSeen) == n
  {
    n.(status := "active", lastSeen := now)
  }

  /** `markNeighborUnhealthy`: inactive, last sighting kept. */
  function MarkUnhealthy(n: Neighbor): (r: Neighbor)
    ensures r.status == "inactive" && r.(status := n.status) == n
  {
    n.(status := "inactive")
  }

  /** The health marks move the estimates: a neighbor marked healthy now,
      when no sighting is later, makes now the last sync time and joins the
      active set; one marked unhealthy leaves it. */
  lemma HealthMarksMoveEstimates(table: Table, d: string, order: seq<string>, startTime: int, now: int)
    requires Enumerates(table, order) && d in table
    requires now > GoTime.ZeroTime && forall e :: e in table ==> table[e].lastSeen <= now
    ensures LastNeighborSync(table[d := MarkHealthy(table[d], now)], order, startTime) == now
    ensures ActiveDomains(table[d := MarkHealthy(table[d], now)]) == ActiveDomains(table) + {d}
    ensures ActiveDomains(table[d := MarkUnhealthy(table[d])]) == ActiveDomains(table) - {d}
  {
    var healthy := table[d := MarkHealthy(table[d], now)];
    assert healthy.Keys == table.Keys;
    assert Enumerates(healthy, order);
    assert healthy[d].lastSeen > GoTime.ZeroTime;
    var t := LastNeighborSync(healthy, order, startTime);
    assert healthy[d].lastSeen <= t;
    var e :| e in healthy && healthy[e].lastSeen == t;
    assert t <= now by {
      if e != d { assert healthy[e] == table[e]; }
    }
  }

  /** The table's neighbors in iteration order. */
  function Values(table: Table, order: seq<string>): (ns: seq<Neighbor>)
    requires forall i :: 0 <= i < |order| ==> order[i] in table
    ensures |ns| == |order| && forall i :: 0 <= i < |order| ==> ns[i] == table[order[i]]
  {
    seq(|order|, i requires 0 <= i < |order| => table[order[i]])
  }

  // ---------------------------------------------------------------------------
  // Estimates

  /** The loop of `getLastNeighborSync`: start from the zero time and take
      every later sighting. */
  function LatestSeen(ns: seq<Neighbor>): (t: int)
    ensures t >= GoTime.ZeroTime
    ensures forall k :: 0 <= k < |ns| ==> ns[k].lastSeen <= t
    ensures t == GoTime.ZeroTime || exists k :: 0 <= k < |ns| && ns[k].lastSeen == t
  {
    if |ns| == 0 then GoTime.ZeroTime
    else
      var t := LatestSeen(ns[..|ns| - 1]);
      assert forall k :: 0 <= k < |ns| - 1 ==> ns[k] == ns[..|ns| - 1][k];
      if ns[|ns| - 1].lastSeen > t then ns[|ns| - 1].lastSeen else t
  }

  /** `getLastNeighborSync`: the latest sighting of any neighbor, or the
      node's start time when there is none after the zero time. */
  function LastNeighborSync(table: Table, order: seq<string>, startTime: int): (t: int)
    requires Enumerates(table, order)
    ensures (forall d :: d in table ==> table[d].lastSeen <= GoTime.ZeroTime) ==> t == startTime
    ensures (exists d :: d in table && table[d].lastSeen > GoTime.ZeroTime) ==>
      (exists d :: d in table && table[d].lastSeen == t) && forall d :: d in table ==> table[d].lastSeen <= t
  {
    var ns := Values(table, order);
    var latest := LatestSeen(ns);
    assert forall d :: d in table ==> table[d] in ns by {
      forall d | d in table ensures table[d] in ns {
        var i :| 0 <= i < |order| && order[i] == d;
        assert ns[i] == table[d];
      }
    }
    if GoTime.IsZero(latest) then startTime else latest
  }

  /** The last sync time does not depend on the iteration order. */
  lemma LastSyncOrderIndependent(table: Table, o1: seq<string>, o2: seq<string>, startTime: int)
    requires Enumerates(table, o1) && Enumerates(table, o2)
    ensures LastNeighborSync(table, o1, startTime) == LastNeighborSync(table, o2, startTime)
  {
    var t1 := LastNeighborSync(table, o1, startTime);
    var t2 := LastNeighborSync(table, o2, startTime);
    if exists d :: d in table && table[d].lastSeen > GoTime.ZeroTime {
      var d1 :| d1 in table && table[d1].lastSeen == t1;
      var d2 :| d2 in table && table[d2].lastSeen == t2;
      assert t1 <= t2 && t2 <= t1;
    }
  }

  /** The domains of the active neighbors. */
  function ActiveDomains(table: Table): set<string> {
    set d | d in table && table[d].status == "active"
  }

  /** The loop of `GetNetworkInfo` that counts active neighbors. */
  function CountActive(table: Table, order: seq<string>): nat
    requires forall i :: 0 <= i < |order| ==> order[i] in table
  {
    if |order| == 0 then 0
    else (if table[order[0]].status == "active" then 1 else 0) + CountActive(table, order[1..])
  }

  lemma {:induction false} CountActiveAgree(t1: Table, t2: Table, order: seq<string>)
    requires forall i :: 0 <= i < |order| ==> order[i] in t1 && order[i] in t2 && t1[order[i]] == t2[order[i]]
    ensures CountActive(t1, order) == CountActive(t2, order)
  {
    if |order| > 0 {
      CountActiveAgree(t1, t2, order[1..]);
    }
  }

  /** Removing one neighbor removes at most that domain from the active set. */
  lemma ActiveSplit(table: Table, d: string)
    requires d in table
    ensures d !in ActiveDomains(table - {d})
    ensures table[d].status == "active" ==> ActiveDomains(table) == ActiveDomains(table - {d}) + {d}
    ensures table[d].status != "active" ==> ActiveDomains(table) == ActiveDomains(table - {d})
  {
  }

  /** Counting along any enumeration gives the number of active neighbors. */
  lemma {:induction false} CountActiveIsActiveDomains(table: Table, order: seq<string>)
    requires Enumerates(table, order)
    ensures CountActive(table, order) == |ActiveDomains(table)|
  {
    if |order| == 0 {
      assert ActiveDomains(table) == {};
    } else {
      var d := order[0];
      var rest := table - {d};
      EnumerationTail(table, order);
      assert forall i :: 0 <= i < |order[1..]| ==> order[1..][i] in rest && rest[order[1..][i]] == table[order[1..][i]];
      CountActiveAgree(table, rest, order[1..]);
      CountActiveIsActiveDomains(rest, order[1..]);
      ActiveSplit(table, d);
    }
  }

  datatype NetworkInfo = NetworkInfo(estimatedNodes: int, estimatedAgents: int)

  /** `GetNetworkInfo`: this node plus one per active neighbor, and its own
      agents (the first 1000) plus an estimate of ten per active neighbor. */
  function GetNetworkInfo(agents: seq<Option<Agent>>, nodeId: string, table: Table, order: seq<string>): (info: NetworkInfo)
    requires Enumerates(table, order)
    ensures info.estimatedNodes == 1 + |ActiveDomains(table)|
    ensures info.estimatedAgents - 10 * (info.estimatedNodes - 1) == |Storage.ListAgents(agents, nodeId, 1, 1000).value.items|
    ensures info.estimatedNodes <= 1 + |table|
  {
    var local := |Storage.ListAgents(agents, nodeId, 1, 1000).value.items|;
    var active := CountActive(table, order);
    CountActiveIsActiveDomains(table, order);
    assert ActiveDomains(table) <= table.Keys;
    Iteration.EnumerationLength(table, order);
    assert |ActiveDomains(table)| <= |table.Keys| by {
      SubsetCard(ActiveDomains(table), table.Keys);
    }
    NetworkInfo(1 + active, local + 10 * active)
  }

  lemma SubsetCard(a: set<string>, b: set<string>)
    requires a <= b
    ensures |a| <= |b|
  {
    assert b == a + (b - a);
  }

  // ---------------------------------------------------------------------------
  // Challenges

  datatype ChallengeError = MissingParticipants | IssuerNotLocal | ChallengeNotFound | ChallengeNotPending | ChallengeExpired

  const ChallengeLifetime: int := 24 * GoTime.Hour

  /** `CreateChallenge`: issuer and target are required and the issuer must
      be an agent of this node; the challenge starts pending and expires a
      day later. */
  function CreateChallenge(c: Challenge, localAgents: set<string>, now: int, freshId: string): (r: Result<Challenge, ChallengeError>)
    ensures c.issuerId == "" || c.targetId == "" <==> r == Err(MissingParticipants)
    ensures r == Err(IssuerNotLocal) <==> c.issuerId != "" && c.targetId != "" && c.issuerId !in localAgents
    ensures r.Ok? ==>
      && r.value.status == "pending" && r.value.expiresAt == now + ChallengeLifetime
      && r.value.issuerId == c.issuerId && r.value.targetId == c.targetId && r.value.question == c.question
      && r.value.id == (if c.id == "" then freshId else c.id)
  {
    if c.issuerId == "" || c.targetId == "" then Err(MissingParticipants)
    else if c.issuerId !in localAgents then Err(IssuerNotLocal)
    else Ok(Storage.SaveChallenge(c.(status := "pending", expiresAt := now + ChallengeLifetime), now, freshId))
  }

  /** What an operation wrote back and the error it reported. */
  datatype ChallengeStep = ChallengeStep(written: Option<Challenge>, error: Option<ChallengeError>)

  /** `RespondToChallenge`: the state is checked before expiry, so an
      answered or expired challenge is refused without a write; a pending
      one past its deadline is written back as "expired". */
  function RespondToChallenge(stored: Option<Challenge>, answer: string, now: int): (r: ChallengeStep)
    ensures stored.None? ==> r == ChallengeStep(None, Some(ChallengeNotFound))
    ensures stored.Some? && stored.value.status != "pending" ==> r == ChallengeStep(None, Some(ChallengeNotPending))
    ensures stored.Some? && stored.value.status == "pending" && now > stored.value.expiresAt ==>
      r == ChallengeStep(Some(stored.value.(status := "expired")), Some(ChallengeExpired))
    ensures r.error.None? <==> stored.Some? && stored.value.status == "pending" && now <= stored.value.expiresAt
    ensures r.error.None? ==>
      && r.written.Some? && r.written.value.status == "completed"
      && r.written.value.answer == answer && r.written.value.completedAt == Some(now)
      && r.written.value.(status := "pending", answer := stored.value.answer, completedAt := stored.value.completedAt) == stored.value
  {
    match stored
    case None => ChallengeStep(None, Some(ChallengeNotFound))
    case Some(c) =>
      if c.status != "pending" then ChallengeStep(None, Some(ChallengeNotPending))
      else if now > c.expiresAt then ChallengeStep(Some(c.(status := "expired")), Some(ChallengeExpired))
      else ChallengeStep(Some(c.(answer := answer, status := "completed", completedAt := Some(now))), None)
  }

  /** A challenge is answered at most once: responding again to what the
      first response wrote is refused and writes nothing. */
  lemma ChallengeAnsweredOnce(c: Challenge, a1: string, a2: string, t1: int, t2: int)
    ensures var first := RespondToChallenge(Some(c), a1, t1);
      first.written.Some? ==> RespondToChallenge(first.written, a2, t2) == ChallengeStep(None, Some(ChallengeNotPending))
  {
  }

  // ---------------------------------------------------------------------------
  // Agent-location cache

  const CacheLimit: int := 1000
  const CacheEvictions: int := 500

  /** `cacheAgentLocation`: record the agent's node; once the cache holds
      more than 1000 entries, the first 500 keys the iteration visits are
      deleted (possibly including the entry just added). */
  function CacheAgentLocation(cache: map<string, string>, agentId: string, nodeId: string, order: seq<string>)
    : (r: map<string, string>)
    requires Enumerates(cache[agentId := nodeId], order)
    ensures forall k :: k in r ==> k in cache[agentId := nodeId] && r[k] == cache[agentId := nodeId][k]
    ensures |cache[agentId := nodeId]| <= CacheLimit ==> r == cache[agentId := nodeId]
    ensures |cache[agentId := nodeId]| > CacheLimit ==> |r| == |cache[agentId := nodeId]| - CacheEvictions
    ensures |cache| <= CacheLimit ==> |r| <= CacheLimit
  {
    var c := cache[agentId := nodeId];
    if |c| > CacheLimit then
      EvictionSize(c, order);
      c - Evicted(order)
    else c
  }

  /** The keys the eviction visits first. */
  function Evicted(order: seq<string>): set<string>
    requires |order| >= CacheEvictions
  {
    set k | k in order[..CacheEvictions]
  }

  /** Evicting the first 500 visited keys of an over-full cache removes
      exactly 500 entries. */
  lemma EvictionSize(c: map<string, string>, order: seq<string>)
    requires Enumerates(c, order) && |c| > CacheLimit
    ensures |order| >= CacheEvictions && Evicted(order) <= c.Keys
    ensures |c - Evicted(order)| == |c| - CacheEvictions
  {
    Iteration.EnumerationLength(c, order);
    var evicted := Evicted(order);
    assert Distinct(order[..CacheEvictions]);
    Iteration.DistinctCard(order[..CacheEvictions]);
    assert (c - evicted).Keys == c.Keys - evicted;
    assert c.Keys == (c.Keys - evicted) + evicted;
  }

  // ---------------------------------------------------------------------------
  // Discovery and DNS

  /** The address a discovered manifest is contacted at: its API endpoint,
      or its web UI when it advertises none. */
  function NeighborUrl(m: NodeManifest): string {
    if m.endpoints.api != "" then m.endpoints.api else m.endpoints.webUi
  }

  /** `manifests[k]` is the first manifest for node `d` with a reachable
      address: the one the discovery loop adds `d` from. */
  predicate FirstReachable(manifests: seq<NodeManifest>, d: string, reachable: set<string>, k: int) {
    && 0 <= k < |manifests|
    && manifests[k].nodeId == d
    && NeighborUrl(manifests[k]) in reachable
    && forall j :: 0 <= j < k && manifests[j].nodeId == d ==> NeighborUrl(manifests[j]) !in reachable
  }

  /** The entry the loop leaves for a node it added: the connected
      neighbor for the first manifest of that node with a reachable
      address, contacted at that manifest's API or else web UI endpoint. */
  predicate AddedFrom(manifests: seq<NodeManifest>, d: string, reachable: set<string>, now: int, n: Neighbor) {
    exists k :: 0 <= k < |manifests| && FirstReachable(manifests, d, reachable, k)
      && n == Neighbor(NeighborId(d, now), d, NeighborUrl(manifests[k]), now, "connected")
  }

  /** A manifest the loop wants to add: not this node, and reachable. */
  predicate Eligible(m: NodeManifest, selfId: string, reachable: set<string>) {
    m.nodeId != selfId && NeighborUrl(m) in reachable
  }

  /** The loop of `discoverNeighbors` over discovered manifests; `reachable`
      holds the URLs whose ping succeeds; a failed addition is skipped.
      Every eligible manifest's node ends up in the table unless the table
      is full, and every added node comes from its first reachable
      manifest. */
  function AddDiscovered(table: Table, selfId: string, manifests: seq<NodeManifest>, reachable: set<string>, now: int)
    : (r: Table)
    ensures table.Keys <= r.Keys && forall d :: d in table ==> r[d] == table[d]
    ensures |table| >= MaxNeighbors ==> r == table
    ensures forall d :: d in r && d !in table ==> d != selfId && AddedFrom(manifests, d, reachable, now, r[d])
    ensures forall k :: 0 <= k < |manifests| && Eligible(manifests[k], selfId, reachable) ==>
      manifests[k].nodeId in r || |r| >= MaxNeighbors
    ensures |table| <= MaxNeighbors ==> |r| <= MaxNeighbors
    decreases |manifests|
  {
    if |manifests| == 0 then table
    else
      var m := manifests[0];
      var next := AddManifest(table, selfId, m, reachable, now);
      var r := AddDiscovered(next, selfId, manifests[1..], reachable, now);
      AddedStep(table, selfId, manifests, reachable, now, next, r);
      EligibleStep(table, selfId, manifests, reachable, now, next, r);
      r
  }

  /** The inductive step of the loop's soundness: a node new to the table
      came from the first manifest, or from a later one when the first gave
      no reachable address for it. */
  lemma AddedStep(table: Table, selfId: string, manifests: seq<NodeManifest>, reachable: set<string>, now: int,
                  next: Table, r: Table)
    requires |manifests| > 0 && next == AddManifest(table, selfId, manifests[0], reachable, now)
    requires next.Keys <= r.Keys && forall d :: d in next ==> r[d] == next[d]
    requires |next| >= MaxNeighbors ==> r == next
    requires forall d :: d in r && d !in next ==> d != selfId && AddedFrom(manifests[1..], d, reachable, now, r[d])
    ensures forall d :: d in r && d !in table ==> d != selfId && AddedFrom(manifests, d, reachable, now, r[d])
  {
    var m := manifests[0];
    forall d | d in r && d !in table
      ensures d != selfId && AddedFrom(manifests, d, reachable, now, r[d])
    {
      if d in next {
        assert FirstReachable(manifests, d, reachable, 0);
      } else {
        var k :| 0 <= k < |manifests[1..]| && FirstReachable(manifests[1..], d, reachable, k)
          && r[d] == Neighbor(NeighborId(d, now), d, NeighborUrl(manifests[1..][k]), now, "connected");
        assert m.nodeId == d ==> NeighborUrl(m) !in reachable;
        assert FirstReachable(manifests, d, reachable, k + 1) by {
          forall j | 0 <= j < k + 1 && manifests[j].nodeId == d ensures NeighborUrl(manifests[j]) !in reachable {
            if j > 0 { assert manifests[j] == manifests[1..][j - 1]; }
          }
        }
      }
    }
  }

  /** The inductive step of the loop's completeness. */
  lemma EligibleStep(table: Table, selfId: string, manifests: seq<NodeManifest>, reachable: set<string>, now: int,
                     next: Table, r: Table)
    requires |manifests| > 0 && next == AddManifest(table, selfId, manifests[0], reachable, now)
    requires next.Keys <= r.Keys
    requires |next| >= MaxNeighbors ==> r == next
    requires forall k :: 0 <= k < |manifests[1..]| && Eligible(manifests[1..][k], selfId, reachable) ==>
      manifests[1..][k].nodeId in r || |r| >= MaxNeighbors
    ensures forall k :: 0 <= k < |manifests| && Eligible(manifests[k], selfId, reachable) ==>
      manifests[k].nodeId in r || |r| >= MaxNeighbors
  {
    forall k | 0 <= k < |manifests| && Eligible(manifests[k], selfId, reachable)
      ensures manifests[k].nodeId in r || |r| >= MaxNeighbors
    {
      if k > 0 { assert manifests[k] == manifests[1..][k - 1]; }
    }
  }

  /** One iteration of that loop: the manifest's node is added, at its API
      or else web UI address, exactly when it is not this node, not yet a
      neighbor, the table has room and the address answers; otherwise the
      table stays as it was. */
  function AddManifest(table: Table, selfId: string, m: NodeManifest, reachable: set<string>, now: int): (r: Table)
    ensures table.Keys <= r.Keys && forall d :: d in table ==> r[d] == table[d]
    ensures r.Keys <= table.Keys + {m.nodeId}
    ensures var url := if m.endpoints.api != "" then m.endpoints.api else m.endpoints.webUi;
      (m.nodeId !in table && m.nodeId in r) <==>
        (m.nodeId != selfId && m.nodeId !in table && |table| < MaxNeighbors && url in reachable)
    ensures m.nodeId !in table && m.nodeId in r ==>
      r[m.nodeId] == Neighbor(NeighborId(m.nodeId, now), m.nodeId,
        if m.endpoints.api != "" then m.endpoints.api else m.endpoints.webUi, now, "connected")
    ensures |table| >= MaxNeighbors ==> r == table
    ensures |table| <= MaxNeighbors ==> |r| <= MaxNeighbors
  {
    if m.nodeId == selfId then table
    else match AddNeighbor(table, m.nodeId, NeighborUrl(m), now, NeighborUrl(m) in reachable)
      case Ok(t) => t
      case Err(_) => table
  }

  /** `discoverNeighbors`: nothing happens without bootstrap seeds;
      otherwise the discovery loop runs over the manifests found from the
      seeds, in seed order. */
  function DiscoverNeighbors(table: Table, selfId: string, seeds: seq<string>,
                             lookups: map<string, seq<string>>, fetched: map<string, NodeManifest>,
                             reachable: set<string>, now: int): (r: Table)
    ensures |seeds| == 0 ==> r == table
    ensures selfId in r ==> selfId in table
    ensures |table| <= MaxNeighbors ==> |r| <= MaxNeighbors
    ensures forall d :: d in table ==> d in r && r[d] == table[d]
    ensures var found := Discovery.DiscoverNodes(seeds, lookups, fetched);
      && (forall d :: d in r && d !in table ==> AddedFrom(found, d, reachable, now, r[d]))
      && (|seeds| > 0 ==> forall k :: 0 <= k < |found| && Eligible(found[k], selfId, reachable) ==>
            found[k].nodeId in r || |r| >= MaxNeighbors)
  {
    if |seeds| == 0 then table
    else AddDiscovered(table, selfId, Discovery.DiscoverNodes(seeds, lookups, fetched), reachable, now)
  }

  /** `GetDNSRecords`: the TXT record and the two SRV records a node should
      publish for its domain and port. */
  function GetDNSRecords(domain: string, port: int): (records: map<string, string>)
    ensures records.Keys == {"_botnet." + domain, "_botnet-api._tcp." + domain, "_botnet-federation._tcp." + domain}
    ensures records["_botnet." + domain] == "v=botnet1 node=" + domain + " proto=https port=" + Strconv.Itoa(port) + " version=1.0"
    ensures records["_botnet-api._tcp." + domain] == records["_botnet-federation._tcp." + domain]
      == "0 5 " + Strconv.Itoa(port) + " " + domain + "."
  {
    var srv := "0 5 " + Strconv.Itoa(port) + " " + domain + ".";
    map["_botnet." + domain := "v=botnet1 node=" + domain + " proto=https port=" + Strconv.Itoa(port) + " version=1.0",
        "_botnet-api._tcp." + domain := srv,
        "_botnet-federation._tcp." + domain := srv]
  }

  /** The three record names are distinct, so all three records are kept. */
  lemma DnsRecordCount(domain: string, port: int)
    ensures |GetDNSRecords(domain, port)| == 3
  {
    var a := "_botnet." + domain;
    var b := "_botnet-api._tcp." + domain;
    var c := "_botnet-federation._tcp." + domain;
    assert a[7] == '.' && b[7] == '-' && c[7] == '-';
    assert b[8] == 'a' && c[8] == 'f';
    assert |{a, b, c}| == 3;
  }

  /** The TXT record of `GetDNSRecords` is published under the same name as
      the discovery record, but it does not start with "v=1", so endpoint
      extraction finds nothing in it. */
  lemma DnsTxtRecordNotDiscoverable(domain: string, port: int)
    ensures Discovery.TxtName(domain) in GetDNSRecords(domain, port)
    ensures Discovery.ParseEndpoint([GetDNSRecords(domain, port)[Discovery.TxtName(domain)]]) == ""
  {
    var rec := GetDNSRecords(domain, port)[Discovery.TxtName(domain)];
    assert rec[2] == 'b';
    assert !Discovery.Qualifies(rec);
  }
}
