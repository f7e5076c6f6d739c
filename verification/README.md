# BotNet core in Dafny

A model of the deterministic core of BotNet, a federated network of AI-agent
nodes with a central registry, written in Go, with a small Python mock node.
Clocks, randomness, the network, the file system and the cryptographic
primitives become parameters. What is left is pure functions over `seq`,
`map`, `string` and `int`, with contracts and lemmas that state what the code
promises.

Conventions used throughout:

- A Go string is a byte string, so each `char` stands for one byte.
- Time is an `int` count of nanoseconds, as in Go's `time.Duration`.
- Go's truncating `/` and `%` are `GoInt.Quo` and `GoInt.Rem`.
- Go's randomised map iteration is an `order` parameter that enumerates the
  map (`Iteration.Enumerates`).
- A directory listing is a `seq<Option<T>>` in listing order. `None` is a
  file that fails to load.

| file | module | models |
|---|---|---|
| `wrappers.dfy`, `goint.dfy`, `gotime.dfy`, `gostrings.dfy`, `strconv.dfy`, `iteration.dfy` | helpers | Go's integer division, `time`, `strings`, `strconv` and map iteration |
| `types.dfy` | `Types` | the records of `pkg/types/types.go` |
| `storage.dfy` | `Storage` | the file-system store: pagination, filtered listings, reputation, blacklist, ID assignment |
| `registry.dfy` | `Registry` | domain allow-list, node and agent registration, the handshake session lifecycle, riddles |
| `node.dfy` | `NodeService` | the neighbor table, last sync, network estimate, challenges, agent-location cache, discovery, DNS records |
| `discovery.dfy` | `Discovery` | the TXT record a node publishes and the endpoint extraction that reads it back |
| `api.dfy`, `legacyapi.dfy` | `Api`, `LegacyApi` | the pure helpers and checks of both HTTP APIs |
| `config.dfy` | `Config` | environment defaults, comma lists, required settings |
| `keycache.dfy` | `KeyCache` | the TTL public-key cache and key fetching |
| `ratelimit.dfy` | `RateLimit` | the fixed-window rate limiter and the post limiter |
| `keys.dfy` | `Keys` | Ed25519/base64 as uninterpreted functions with the laws the proofs use |
| `signing.dfy` | `Signing` | canonical message payload, signing, ordered validation |
| `manifest.dfy` | `Manifest` | node-manifest payload, `ed25519:` key prefix, signing, ordered validation |
| `keystore.dfy` | `KeyStore` | the per-agent key directory |
| `nodekeys.dfy` | `NodeKeys` | the node's single key file |
| `testnode.dfy`, `recorder.dfy` | `TestNode`, `Recorder` | the Go and Python mock nodes that record handshake results |

Some code exists twice: the older `src/botnet.go.old/internal/api/api.go` and
the current `internal/api/api.go`. Both have the same content check
(202-208 and 291-297 in the older file), truncations (1006-1009, 1462-1465,
1025-1026), `formatDuration` (1617-1624) and `joinFeatures` (1626-1638). They
are modelled once, in `Api`.

## Model

| member | source | states |
|---|---|---|
| Storage.Paginate | internal/storage/storage.go:142-156 | `total` is always the input length. For page ≥ 1 and size ≥ 0 there is no panic. The page is the contiguous run from `(page-1)*size` of `min(size, rest)` elements, in input order, or empty past the end. A negative start or size that reaches the slice is the panic. |
| Storage.PageFromListing | internal/storage/storage.go:142-156 | A page holds only elements of the listing it was cut from. |
| Storage.PaginateCovers | internal/storage/storage.go:142-156 | Element `i` is found at position `i % size` of page `i / size + 1`, so the pages cover the listing. |
| Storage.Loaded | internal/storage/storage.go:230-247 | A filtered listing holds exactly the loadable entries that match, each one drawn from the directory. |
| Storage.LoadedAppend | internal/storage/storage.go:230-247 | Filtering keeps directory order: filtering two segments gives the concatenation of their filtered listings. |
| Storage.ListUnfiltered | internal/storage/storage.go:177-194 | `ListNodes`/`ListBlacklist` cut the page window from the file names, then load it. The items are exactly the readable files of that window, in order. `total` counts every file, readable or not. A negative start or size panics iff the window is not past the end. |
| Storage.ListFiltered | internal/storage/storage.go:220-248 | `total` is the number of matching entries, not the page size. The items are exactly the page window of the matching entries, in directory order. A negative start or size panics iff the window is not past the end. |
| Storage.ListAgents | internal/storage/storage.go:220-248 | An empty node ID keeps every agent; otherwise only that node's agents. `total` counts the matches. |
| Storage.ListMessages | internal/storage/storage.go:274-302 | A message is listed when the filter is empty or equals its recipient or its author. |
| Storage.ListChallenges | internal/storage/storage.go:328-357 | Target and status filters must both hold, and an empty filter always holds. |
| Storage.ListTransactions | internal/storage/storage.go:377-405 | A transaction is listed when the filter is empty or the agent is its payer or its payee. `total` counts the matches. |
| Storage.ListReputationHistory | internal/storage/storage.go:433-461 | Only the agent's own entries are listed. An empty ID is not a wildcard here. |
| Storage.EmptyFiltersKeepAll | internal/storage/storage.go:230-339 | Empty agent, message and challenge filters keep every loaded entry. |
| Storage.GetReputation | internal/storage/storage.go:414-431 | The result is 0 when the agent has no readable entry. |
| Storage.ReputationIsHistorySum | internal/storage/storage.go:414-431 | The reputation equals the sum of `Change` over the agent's listed history. |
| Storage.ReputationAppend | internal/storage/storage.go:414-431 | One more entry, listed last, moves that agent's reputation by exactly its change, and leaves every other agent's unchanged. |
| Storage.IsBlacklisted | internal/storage/storage.go:500-520 | True iff some readable entry has the type and target, status "active", and either no expiry or `now` not after it. |
| Storage.SaveNode | internal/storage/storage.go:159-168 | A node without an ID gets the fresh ID and creation time now. Every save stamps `UpdatedAt`. No other field changes. |
| Storage.PutNode | internal/storage/storage.go:159-168 | After a save the node's file is listed first. No other copy of that ID remains, and every other file is kept. |
| Storage.Put | internal/storage/storage.go:86-97 | Writing a record to the file its ID names puts it first. It overwrites every readable file with that ID and keeps every other file. |
| Storage.PutFresh | internal/storage/storage.go:86-97 | When no readable file holds the ID, the write only adds the file in front. |
| Storage.PutBlacklistEntry | internal/storage/storage.go:464-472 | After a save the entry's file is listed first. No other entry with that ID remains, and every other file is kept. |
| Storage.AssignId | internal/storage/storage.go:203-207 | The one save rule: a record without an ID gets the fresh ID and the stamp, and one with an ID is written unchanged. |
| Storage.AssignIdIdempotent | internal/storage/storage.go:203-211 | Once a save has set a non-empty ID, saving again writes the record as it is. |
| Storage.SaveAgent | internal/storage/storage.go:203-211 | Only an agent without an ID gets the fresh ID and creation time. |
| Storage.SaveMessage | internal/storage/storage.go:257-265 | Only a message without an ID gets the fresh ID and timestamp. |
| Storage.SaveChallenge | internal/storage/storage.go:311-319 | Only a challenge without an ID gets the fresh ID and creation time. |
| Storage.SaveTransaction | internal/storage/storage.go:360-368 | Only a transaction without an ID gets the fresh ID and timestamp. |
| Storage.SaveBlacklistEntry | internal/storage/storage.go:464-472 | Only an entry without an ID gets the fresh ID and creation time. |
| Storage.SavesAreIdempotent | internal/storage/storage.go:203-472 | Saving an agent, message, challenge, transaction or blacklist entry a second time changes nothing: an ID, once set, is kept. |
| Storage.SaveNodeKeepsIdentity | internal/storage/storage.go:159-168 | Saving a node again keeps its ID and creation time and only moves `UpdatedAt`. |
| Storage.SaveReputationEntry | internal/storage/storage.go:408-412 | The entry is a new file, listed first, with the old files after it. Every agent's reputation moves by that entry's change if it is theirs, and not at all otherwise. |
| Registry.IsDomainAllowed | internal/registry/service.go:177-199 | A domain is allowed iff some entry admits it. "*" admits everything. An exact entry admits itself. "*.p" admits p and domains ending in ".p". |
| Registry.StarAndExactAllow | internal/registry/service.go:179-188 | A "*" entry, or an entry equal to the domain, allows it. |
| Registry.WildcardAllowsSubdomains | internal/registry/service.go:190-196 | "*.p" allows p itself and every `x.p`. |
| Registry.WildcardNeedsLabelBoundary | internal/registry/service.go:190-198 | "*.example.com" does not allow "badexample.com", and an empty list allows nothing. |
| Registry.ExistingNodes | internal/registry/service.go:68-72 | The duplicate check sees readable nodes of the directory, starting with the newest. |
| Registry.Admitted | internal/registry/service.go:90-106 | The registered node is "active" and seen now. Version defaults to "1.0.0" and capabilities to messaging and agent_hosting, each only when absent. No other field changes. |
| Registry.RegisterNode | internal/registry/service.go:62-107 | Four refusals in order, each iff the earlier checks pass: domain not allowed, domain held by another ID, blacklisted domain, blacklisted node ID. A refusal writes nothing. On success the defaulted node is the newest file. Domain, URL, public key and reputation come from the request, and the ID and creation time are kept or assigned. Every other node file is kept, and an earlier file with the same ID is replaced. |
| Registry.RegisteredDomainIsTaken | internal/registry/service.go:62-87 | After a registration, a node with another ID asking for the same domain is refused as a duplicate. |
| Registry.RegisterAgent | internal/registry/service.go:150-163 | Status defaults to "online", last-active and creation times to now, and the ID to the fresh one. Identity fields are kept. |
| Registry.RegisterAgentIdempotent | internal/registry/service.go:150-163 | Registering an agent again, later, returns it unchanged. |
| Registry.AddToBlacklist | internal/registry/service.go:166-169 | The entry is stored as "active" under its ID, kept or assigned, as the newest file. Any earlier entry with that ID is overwritten. Every other entry is kept, and allow-list and nodes are unchanged. |
| Registry.OverwriteUnblocks | internal/storage/storage.go:464-472 | Re-adding an ID that was the only thing blocking a target, with another target, frees the first target. |
| Registry.BlacklistBlocksRegistration | internal/registry/service.go:64-87 | Once a domain is blacklisted without expiry, every registration for it fails. |
| Registry.Deactivated | internal/registry/service.go:213-231 | The sweep marks "inactive" exactly the active nodes last seen before the cutoff. |
| Registry.CleanupIdempotent | internal/registry/service.go:213-231 | Sweeping the nodes a sweep has just saved deactivates none of them. |
| Registry.NoneActive | internal/registry/service.go:213-231 | Without active nodes the sweep does nothing. |
| Registry.StartHandshake | internal/registry/service.go:236-264 | Without a riddle, start fails. Otherwise the session is pending for the requesting domain, bound to the riddle and token, and expires five minutes from now. |
| Registry.ProcessRiddleResponse | internal/registry/service.go:267-299 | Expiry is checked before status. An expired session is saved "expired" with an error. A live non-pending one is refused unchanged. Only a live pending one becomes "answered", storing the answer and callback domain. |
| Registry.ProcessHandshakeResult | internal/registry/service.go:302-334 | The score and completion time are recorded. The status is "evaluated" iff accepted and score ≥ 0.7, else "failed". Riddle stats and the callback use the same boolean. |
| Registry.CallbackUrl | internal/registry/service.go:477-481 | The URL is http iff the domain contains "localhost" or "127.0.0.1", else https, and ends in "/api/v1/handshake/result". |
| Registry.LocalCallbackUsesHttp | internal/registry/service.go:477-481 | Any domain containing "localhost" or "127.0.0.1" is called back over plain http. |
| Registry.CallbackOutcome | internal/registry/service.go:456-523 | Status is "completed" iff the callback answered 200 and registration succeeded. It is "registration_failed" iff 200 and registration failed, and "callback_failed" iff no 200. Only "completed" changes the registry, adding the node with its handshake capabilities. |
| Registry.CompletedCallbackTakesDomain | internal/registry/service.go:495-513 | After a completed callback no node with another ID can register the requesting domain. |
| Registry.OperationsFollowLifecycle | internal/registry/service.go:267-334 | A riddle answer either answers a pending session in time or expires one past its deadline. The evaluation moves any session to evaluated or failed, and the callback only follows a passing evaluation. |
| Registry.AddRiddle | internal/registry/service.go:342-357 | Node ID and author default to "registry" and "registry-service". A difficulty outside [0.1, 1.0] becomes 0.5. Nothing else changes. |
| Registry.AddRiddleIdempotent | internal/registry/service.go:342-357 | Adding a saved riddle again changes nothing. |
| NodeService.AddNeighbor | internal/node/service.go:1167-1212 | A known domain is accepted with the table unchanged. A full table (8) or a failed ping is an error with no change. The call succeeds iff the domain is known, or there is room and the ping succeeds. A new domain gets exactly one "connected" entry, keyed by domain. |
| NodeService.AddNeighborKeepsCap | internal/node/service.go:93-93 | A table within 8 neighbors stays within 8. |
| NodeService.RemoveNeighbor | internal/node/service.go:1215-1224 | Only that domain goes, and an absent domain is a no-op. |
| NodeService.AddThenRemove | internal/node/service.go:1167-1224 | Adding and then removing a new neighbor restores the table. |
| NodeService.GetNeighbor | internal/node/service.go:1240-1249 | Found iff the key is in the table, and the entry is the one under that key. |
| NodeService.MarkHealthy | internal/node/service.go:1071-1076 | The neighbor becomes active and seen now. Nothing else changes. |
| NodeService.MarkUnhealthy | internal/node/service.go:1079-1083 | The neighbor becomes inactive, keeping its last sighting. |
| NodeService.HealthMarksMoveEstimates | internal/node/service.go:1071-1083 | A neighbor marked healthy now, with no later sighting, makes now the last sync and joins the active set. One marked unhealthy leaves the active set. |
| NodeService.LatestSeen | internal/node/service.go:247-254 | The maximum sighting, or the zero time. |
| NodeService.LastNeighborSync | internal/node/service.go:243-258 | The latest `LastSeen` over the neighbors, or the start time when none is after the zero time. |
| NodeService.LastSyncOrderIndependent | internal/node/service.go:243-258 | The result does not depend on map iteration order. |
| NodeService.CountActiveIsActiveDomains | internal/node/service.go:268-275 | Counting along any iteration order gives the number of active neighbors. |
| NodeService.GetNetworkInfo | internal/node/service.go:261-289 | Nodes = 1 + the number of active neighbors. Agents = local agents + 10 per active neighbor. |
| NodeService.CreateChallenge | internal/node/service.go:617-634 | An empty issuer or target is refused, as is an issuer that is not local. A created challenge is "pending" and expires a day later. |
| NodeService.RespondToChallenge | internal/node/service.go:637-663 | Status is checked before expiry. A non-pending challenge is refused with no write. A pending but expired one is written "expired" with an error. Otherwise it is "completed" with the answer and completion time. |
| NodeService.ChallengeAnsweredOnce | internal/node/service.go:637-663 | Responding again to a completed challenge is refused and writes nothing. |
| NodeService.CacheAgentLocation | internal/node/service.go:847-864 | The agent is recorded. Above 1000 entries the first 500 visited keys are evicted. A cache within 1000 stays within 1000. |
| NodeService.EvictionSize | internal/node/service.go:856-862 | Evicting the first 500 visited keys of a cache over 1000 entries removes exactly 500 entries, all of them cached keys. |
| NodeService.AddDiscovered | internal/node/service.go:197-218 | Every manifest that is not this node and has a reachable address has its node in the table afterwards, unless the table is full. Every added node comes from its first manifest with a reachable address, at that manifest's API address or else its web UI. A full table is left unchanged, existing entries are kept and the cap of 8 holds. |
| NodeService.AddManifest | internal/node/service.go:201-216 | A manifest's node is added iff it is not this node, not yet present, the table has room and its address answers. The address is the API endpoint, or the web UI when there is no API endpoint. The added entry is "connected", and existing entries and the cap are kept. |
| NodeService.DiscoverNeighbors | internal/node/service.go:185-220 | Without seeds nothing changes. Otherwise every added node comes from its first reachable manifest among those discovered from the seeds, at its API-else-web-UI address. Every eligible discovered node is added unless the table is full. Existing neighbors and the cap are kept, and the node never adds itself. |
| NodeService.GetDNSRecords | internal/node/service.go:1465-1484 | One TXT and two equal SRV records, under the node's domain. |
| NodeService.DnsRecordCount | internal/node/service.go:1465-1484 | The three record names are distinct, so there are three records. |
| NodeService.DnsTxtRecordNotDiscoverable | internal/node/service.go:1465-1484 | This TXT record shares its name with the discovery record, but endpoint extraction finds nothing in it. |
| Discovery.TxtName | internal/discovery/dns.go:40-40 | Records live under "_botnet." + domain. |
| Discovery.FirstEndpoint | internal/discovery/dns.go:101-109 | Gives the value after "endpoint=" of the first field that starts with it, or nothing. |
| Discovery.FindEndpoint | internal/discovery/dns.go:98-114 | Gives the endpoint of the first record that yields one. A qualifying record without the field is skipped. |
| Discovery.TxtRecordQualifies | internal/discovery/dns.go:36-48 | The published record starts with "v=1" and contains "endpoint=", so the reader considers it. |
| Discovery.TxtRecordEndpoint | internal/discovery/dns.go:36-48 | The published record's endpoint field reads back as "https://" + nodeID. |
| Discovery.DecoyYieldsNothing | internal/discovery/dns.go:101-110 | A record that starts with "v=1" and mentions "endpoint=" only inside another field qualifies but yields no endpoint. |
| Discovery.ParseEndpoint | internal/discovery/dns.go:98-114 | The result is "" when no record starts with "v=1" and contains "endpoint=". |
| Discovery.PublishedRecordRoundTrip | internal/discovery/dns.go:36-48 | Parsing the record `PublishNodeRecord` builds gives "https://" + nodeID, for any node ID without white space. |
| Discovery.DecoyRecordIsSkipped | internal/discovery/dns.go:101-110 | A record containing "endpoint=" only inside a field is passed over, and the next record answers. |
| Discovery.CheckManifest | internal/discovery/dns.go:143-145 | A manifest passes iff its node ID and version are non-empty. |
| Discovery.CheckManifestAccepts | internal/discovery/dns.go:143-145 | Any manifest with both fields filled in passes unchanged. Clearing either field fails it, and a checked manifest passes again. |
| Discovery.SeedManifest | internal/discovery/dns.go:54-79 | A seed yields a manifest iff its TXT lookup succeeded, the records give a non-empty endpoint, a manifest was fetched from it, and that manifest has node ID and version. The manifest yielded is the fetched one. |
| Wrappers.Somes | internal/discovery/dns.go:54-81 | Skipping failures keeps each present value and nothing else. |
| Discovery.DiscoverNodes | internal/discovery/dns.go:51-84 | At most one manifest per seed, each fetched and with node ID and version set. Every successful seed contributes its manifest. |
| Wrappers.SomesAppend | internal/discovery/dns.go:54-81 | Skipping failures keeps the order: the values of two segments are those of the first, then those of the second. |
| Discovery.DiscoverNodesAppend | internal/discovery/dns.go:54-80 | Seeds are visited in order: two lists of seeds give the first list's manifests followed by the second's. |
| Discovery.DiscoverSingleSeed | internal/discovery/dns.go:54-80 | A single seed yields exactly its own manifest, or nothing. |
| Api.TotalPages | internal/api/api.go:72-72 | Page size 0 is the divide panic. For size > 0 the result is the ceiling of total/size. |
| Api.TotalPagesCountsPages | internal/api/api.go:216-216 | Page n ≥ 1 of the listing holds elements iff n ≤ the page count. |
| Api.ContentError | internal/api/api.go:125-131 | Post and reply content is accepted iff 1 ≤ byte length ≤ 2000. Otherwise the 400 message. |
| Api.UrlError | internal/api/api.go:346-352 | A neighbor URL is accepted iff it starts with "http://" or "https://". |
| Api.CallbackUrlPassesUrlCheck | internal/registry/service.go:477-481 | Every callback URL the registry builds passes the neighbor URL check. |
| Api.Ellipsize | internal/api/api.go:1474-1477 | A text over the width becomes its first width−3 bytes + "...", which is exactly the width. Shorter text is unchanged. |
| Api.CapabilitySummary | internal/api/api.go:1519-1522 | The shown capability list is at most the width, 60 or 50. |
| Api.EllipsizeIdempotent | internal/api/api.go:1917-1920 | Shortening a shortened text changes nothing. |
| Api.ShortNodeId | internal/api/api.go:1537-1540 | IDs over 8 bytes become their first 8 bytes + "...". Others are unchanged. |
| Api.ShortNodeIdStable | internal/api/api.go:1537-1540 | Shortening is idempotent, and long IDs sharing 8 bytes display alike. |
| Api.FindByDomain | internal/api/api.go:379-396 | Gives the first listed neighbor with that domain, or not-found iff none has it. |
| Api.AddNeighborKeepsKeyed | internal/node/service.go:1167-1212 | Adding keeps every neighbor filed under its own domain. |
| Api.FindByDomainIsLookup | internal/api/api.go:379-396 | In any iteration order, the status scan finds exactly the neighbor stored under that domain. |
| Api.DeleteNeighbor | internal/api/api.go:368-376 | Always 200. The domain's neighbor, if any, is removed, and the rest is untouched. |
| Api.ShortDuration | internal/api/api.go:2012-2019 | Under a day the text is "<hours>h <minutes mod 60>m". |
| Api.LongDuration | internal/api/api.go:2012-2019 | From a day on the text is "<days>d <hours mod 24>h". |
| Api.JoinFeatures | internal/api/api.go:2021-2033 | "None" for no features. Otherwise the features joined by ", ", as `strings.Join`. |
| LegacyApi.DmConversation | src/botnet.go.old/internal/api/api.go:318-357 | 400 without author_id. Service errors give 403 iff they contain "access denied", else 500. Page size 0 panics. Otherwise the page count is the ceiling. |
| LegacyApi.AccessDeniedIsForbidden | src/botnet.go.old/internal/api/api.go:331-342 | An error mentioning "access denied" anywhere is 403. Any other is 500. |
| LegacyApi.DeleteNeighbor | src/botnet.go.old/internal/api/api.go:536-555 | 404 with nothing removed for an unknown neighbor. Otherwise the neighbor is removed and the answer is 200. |
| LegacyApi.DeleteRoutesAgree | src/botnet.go.old/internal/api/api.go:536-555 | The old and new DELETE leave the same table. Their statuses agree iff the neighbor exists. |
| Config.GetEnv | internal/config/config.go:200-205 | Gives the value, or the default when unset or empty. |
| Config.GetEnvInt | internal/config/config.go:207-214 | Gives the parsed integer, or the default when unset or unparsable. |
| Config.GetEnvBool | internal/config/config.go:216-223 | Gives the parsed boolean, or the default when unset or unparsable. |
| Config.GetEnvReadsBack | internal/config/config.go:200-205 | A non-empty value set in a variable reads back. An empty one gives the default. Other variables are unaffected. |
| Config.GetEnvBoolReadsBack | internal/config/config.go:216-223 | "true"/"false" and "1"/"0" read back as their boolean. Any other text gives the default. |
| Config.GetEnvIntReadsBack | internal/config/config.go:207-214 | A 64-bit integer written as decimal reads back as itself. |
| Config.TrimmedPieces | internal/config/config.go:172-180 | Every kept piece is non-empty, and every non-blank trimmed piece is kept. |
| Config.TrimmedPiecesTrimThenDrop | internal/config/config.go:172-180 | The loop equals trimming every piece and then dropping the empty ones, in order. |
| Config.TrimmedPiecesAppend | internal/config/config.go:172-180 | The pieces are kept in order: two runs of pieces give the first run's entries, then the second's. One piece gives itself trimmed, or nothing when blank. |
| Config.TrimmedCleanPieces | internal/config/config.go:172-180 | Pieces that are non-empty and have no surrounding white space are kept unchanged and in order. |
| Config.ParseSeeds | internal/config/config.go:168-181 | "" gives no seeds. Otherwise every seed is a trimmed comma-separated piece of the input, and none is empty or holds a comma. Every non-blank piece is a seed. |
| Config.ParseSeedsCons | internal/config/config.go:168-181 | Seeds are read left to right: the first entry, trimmed and dropped if blank, comes before the seeds of the rest. |
| Config.ParseSeedsJoin | internal/config/config.go:168-181 | Clean seeds written comma-separated read back exactly, in order. |
| Config.ParseCapabilities | internal/config/config.go:184-197 | "" gives ["messaging"]. Otherwise the result is what `parseSeeds` reads. |
| Config.SeparatorsGiveNoCapabilities | internal/config/config.go:184-197 | A non-empty value of only commas and spaces gives no capabilities at all. |
| Config.LoadRegistry | internal/config/config.go:85-115 | An error iff JWT_SECRET is unset or empty. ALLOWED_DOMAINS is comma-split and defaults to ["*"]. |
| Config.DefaultRegistryAdmitsAll | internal/config/config.go:96-96 | With ALLOWED_DOMAINS unset, every domain is allowed. |
| Config.LoadNode | internal/config/config.go:118-165 | Only a missing JWT secret errors, because NODE_ID and NODE_DOMAIN have non-empty defaults. Seeds come from `parseSeeds` and are empty by default. |
| Config.DefaultNodeCapabilities | internal/config/config.go:141-141 | Unset NODE_CAPABILITIES gives messaging and agent_hosting. |
| KeyCache.Get | internal/crypto/publickeycache.go:46-62 | An absent agent is not found. The key is returned iff the age ≤ TTL seconds. An expired entry is also removed. |
| KeyCache.Set | internal/crypto/publickeycache.go:65-76 | (Over)writes only that agent, cached now with the default TTL in whole seconds. |
| KeyCache.Delete | internal/crypto/publickeycache.go:79-84 | Removes only that agent. |
| KeyCache.Clear | internal/crypto/publickeycache.go:87-92 | The cache becomes empty. |
| KeyCache.RemoveExpired | internal/crypto/publickeycache.go:119-129 | Removes exactly the expired entries and keeps the rest as they were. |
| KeyCache.SetThenGet | internal/crypto/publickeycache.go:46-76 | A key read within its TTL, the boundary included, is the key that was set. |
| KeyCache.SetSize | internal/crypto/publickeycache.go:65-100 | Set grows the size only for a new agent. |
| KeyCache.DeleteThenGet | internal/crypto/publickeycache.go:79-100 | After delete the agent is missing. After clear the size is 0. |
| KeyCache.RemoveExpiredKeepsAnswers | internal/crypto/publickeycache.go:119-129 | The sweep changes no lookup's answer. |
| Wrappers.FirstSome | internal/crypto/publickeycache.go:162-172 | Gives the first present answer, with every earlier answer missing, and nothing iff every answer is missing. |
| KeyCache.FetchPublicKey | internal/crypto/publickeycache.go:156-175 | A hit returns without asking neighbors. Otherwise the first answer is cached and returned. With no answer, fetch fails. |
| KeyCache.FetchThenHit | internal/crypto/publickeycache.go:156-175 | A fetched key is served from the cache within its TTL, whatever neighbors answer later. |
| RateLimit.NewLimiter | src/botnet.go.old/internal/api/ratelimit.go:28-36 | A new limiter has no clients and the given interval and maximum. |
| RateLimit.Allow | src/botnet.go.old/internal/api/ratelimit.go:44-74 | A new client, or one whose interval has passed, is allowed with count 1. Within the interval a request is allowed iff count < max, and then counted. A denial changes nothing, and other clients are untouched. |
| RateLimit.AllowKeepsWithinLimit | src/botnet.go.old/internal/api/ratelimit.go:44-74 | For max ≥ 1, every count stays between 1 and max. |
| RateLimit.FullWindowDenies | src/botnet.go.old/internal/api/ratelimit.go:60-73 | A full client is denied iff its interval has not passed. |
| RateLimit.Cleanup | src/botnet.go.old/internal/api/ratelimit.go:89-93 | Removes exactly the clients idle for more than an hour. |
| RateLimit.CleanupForgets | src/botnet.go.old/internal/api/ratelimit.go:89-93 | A swept client's next request is allowed. |
| RateLimit.PostLimiter | src/botnet.go.old/internal/api/ratelimit.go:101-102 | One post per minute. |
| RateLimit.PostRateLimit | src/botnet.go.old/internal/api/ratelimit.go:100-135 | 401 without claims or with claims of the wrong type. Otherwise keyed on the GitHub ID, and 429 when denied. |
| RateLimit.OnePostPerMinute | src/botnet.go.old/internal/api/ratelimit.go:100-135 | After a post, the same user passes again iff a minute has gone by. Other users are not held back. |
| Keys.PublicKeyFromBase64 | botnet.go.old/src/internal/crypto/keys.go:40-51 | Fails on bad base64. Otherwise succeeds iff the decoded key has 32 bytes. |
| Keys.PrivateKeyFromBase64 | botnet.go.old/src/internal/crypto/keys.go:54-65 | Fails on bad base64. Otherwise succeeds iff the decoded key has 64 bytes. |
| Keys.KeysRoundTrip | botnet.go.old/src/internal/crypto/keys.go:30-65 | A generated pair's encoded keys decode back to themselves. |
| Signing.PayloadSplits | botnet.go.old/src/internal/crypto/signing.go:14-17 | With no '|' in author or text, the payload splits back into author, text and decimal seconds. |
| Signing.PayloadDeterminesSignedFields | botnet.go.old/src/internal/crypto/signing.go:14-17 | Two payloads are equal iff author, text and whole second are equal. ID, type, signature and sub-second time do not count. |
| Signing.CanonicalPayloadExample | src/botnet.go.old/tests/crypto_test.go:337-351 | The test message's payload is "test-agent\|Test message content\|1640995200". |
| Signing.SignMessage | botnet.go.old/src/internal/crypto/signing.go:20-35 | A private key that is not 64 bytes makes `ed25519.Sign` panic (the error outcome). Otherwise a zero timestamp becomes now and a non-zero one is kept. The signature is the encoded signature of the stamped payload. Nothing else changes. |
| Signing.VerifyMessageSignature | botnet.go.old/src/internal/crypto/signing.go:38-58 | An empty signature is rejected before decoding. Once the signature decodes, a public key that is not 32 bytes makes `ed25519.Verify` panic. Otherwise valid iff it verifies over the payload. |
| Signing.ValidateMessageSignature | botnet.go.old/src/internal/crypto/signing.go:61-97 | Fails in order on: nil, empty author, empty signature, age > 24h, > 5 min ahead, then the key and the signature. Valid iff every check passes. |
| Signing.SignedMessageValidates | botnet.go.old/src/internal/crypto/signing.go:20-97 | A message signed with a generated pair validates while at most 24h old and at most 5 min ahead, both bounds included. |
| Manifest.PayloadIgnoresSignature | botnet.go.old/src/internal/crypto/manifest.go:15-35 | Payloads are equal iff the manifests differ at most in their signatures, given an injective marshaller. |
| Manifest.FormatNodePublicKey | botnet.go.old/src/internal/crypto/manifest.go:144-146 | Gives "ed25519:" followed by the key. |
| Manifest.StripKeyPrefix | botnet.go.old/src/internal/crypto/manifest.go:68-75 | Strips "ed25519:" iff longer than 8 bytes and prefixed. Otherwise the whole field. |
| Manifest.StripFormat | botnet.go.old/src/internal/crypto/manifest.go:68-75 | Strip undoes Format for non-empty keys. Format("") is the bare prefix, kept whole. |
| Manifest.SignNodeManifest | botnet.go.old/src/internal/crypto/manifest.go:38-55 | A private key that is not 64 bytes makes `ed25519.Sign` panic. Otherwise `UpdatedAt` becomes now before signing, the signature is over the stamped payload, and nothing else changes. |
| Manifest.VerifyNodeManifestSignature | botnet.go.old/src/internal/crypto/manifest.go:58-101 | Empty signature, then empty public key, before decoding. Valid iff the key and signature decode and verify. |
| Manifest.ValidateNodeManifest | botnet.go.old/src/internal/crypto/manifest.go:104-141 | Fails in order on: nil, node ID, public key, signature, age > 7 days, > 10 min ahead, then verification. Valid iff all pass. |
| Manifest.SignedManifestValidates | botnet.go.old/src/internal/crypto/manifest.go:38-141 | A manifest carrying its formatted key and signed with the pair validates within the window, both bounds included. |
| Manifest.StaleOrFutureManifestRejected | botnet.go.old/src/tests/crypto_infrastructure_test.go:125-135 | 8 days old is too old. 15 minutes ahead is too far in the future. |
| KeyStore.KeyPath | botnet.go.old/src/internal/crypto/keystore.go:146-148 | The key file is the agent ID + ".key". |
| KeyStore.LoadKey | botnet.go.old/src/internal/crypto/keystore.go:151-165 | Found iff the agent's file exists and parses. |
| KeyStore.GenerateAndStoreKeyPair | botnet.go.old/src/internal/crypto/keystore.go:41-69 | Refused with nothing written when a key loads. Otherwise the new pair is written to the agent's file, replacing an unreadable one. No other file changes. |
| KeyStore.GetPrivateKey | botnet.go.old/src/internal/crypto/keystore.go:72-87 | Not found without a loadable file. Otherwise the decoded private key or the decoding error. |
| KeyStore.GetPublicKey | botnet.go.old/src/internal/crypto/keystore.go:90-100 | The stored base64 key iff the file loads. |
| KeyStore.DeleteKey | botnet.go.old/src/internal/crypto/keystore.go:112-122 | Removes only the agent's file, and succeeds when there was none. |
| KeyStore.KeyNames | botnet.go.old/src/internal/crypto/keystore.go:134-140 | An ID is listed iff ID + ".key" is among the names. |
| KeyStore.ListAgents | botnet.go.old/src/internal/crypto/keystore.go:125-143 | An agent is listed iff its key file is in the directory. |
| KeyStore.GenerateThenRead | src/botnet.go.old/tests/crypto_test.go:232-268 | After generate: has key, the public key reads back encoded, the private key reads back decoded, and the agent is listed. |
| KeyStore.SecondGenerateFails | src/botnet.go.old/tests/crypto_test.go:270-274 | A second generate fails and changes nothing. |
| KeyStore.DeleteThenMissing | src/botnet.go.old/tests/crypto_test.go:277-284 | After delete the agent has no key, and both getters fail. |
| NodeKeys.LoadKeys | botnet.go.old/src/internal/crypto/nodekeys.go:86-119 | Fails in order: missing file, parse error, node-ID mismatch, public key, private key. Succeeds iff all pass, with the decoded pair. |
| NodeKeys.InitializeOrLoadKeys | botnet.go.old/src/internal/crypto/nodekeys.go:44-83 | Without a file, the pair is stored for this node and returned. With any file, it is loaded and nothing is written. |
| NodeKeys.GetPublicKeyBase64 | botnet.go.old/src/internal/crypto/nodekeys.go:122-128 | The loaded public key, encoded, or the load error. |
| NodeKeys.GetPrivateKey | botnet.go.old/src/internal/crypto/nodekeys.go:131-137 | The loaded private key, or the load error. |
| NodeKeys.GettersNeedInitialisation | botnet.go.old/src/internal/crypto/nodekeys.go:122-137 | Before any key file exists both getters fail with the missing-file error. |
| NodeKeys.SecondInitSameKey | botnet.go.old/src/tests/crypto_infrastructure_test.go:36-65 | The second initialisation returns the first pair. The record names the node and holds the encoded public key. |
| NodeKeys.OtherNodesKeyRejected | botnet.go.old/src/internal/crypto/nodekeys.go:100-102 | Another node's key file is never loaded. |
| TestNode.NewTestNode | botnet.go.old/src/cmd/testnode/main.go:33-39 | A new mock node has no results and a fixed ID. |
| TestNode.AddResult | botnet.go.old/src/cmd/testnode/main.go:41-52 | Exactly one result is appended, stamped now. Earlier results are unchanged. |
| TestNode.GetRecentResults | botnet.go.old/src/cmd/testnode/main.go:54-64 | A negative limit panics. Otherwise the last min(limit, n) results, in order. |
| TestNode.RecentIsPythonTail | botnet.go.old/src/cmd/testnode/main.go:54-64 | For limit ≥ 1 the view is Python's `results[-limit:]`, so the two mocks agree. |
| TestNode.ReceiveResult | botnet.go.old/src/cmd/testnode/main.go:89-125 | An empty session ID, a zero score or `accepted: false` fails the required-field binding: 400, nothing stored. Otherwise the result is stored stamped, and the reply names this node. |
| TestNode.RejectionNotRecorded | botnet.go.old/src/cmd/testnode/main.go:89-104 | A result with `accepted: false` is refused by the Go mock, with the history unchanged. The Python mock logs the same post. |
| TestNode.HandshakeHistory | botnet.go.old/src/cmd/testnode/main.go:147-157 | Reports the total and the last ≤ 10 results. |
| TestNode.NodeInfo | botnet.go.old/src/cmd/testnode/main.go:128-144 | Reports the result count, the fixed capabilities and status, and the elapsed time since start in nanoseconds. |
| TestNode.RootResults | botnet.go.old/src/cmd/testnode/main.go:169-170 | The page shows the last ≤ 3 results. |
| TestNode.ReceivedIsNewest | botnet.go.old/src/cmd/testnode/main.go:89-157 | A stored result is last in the history, the total grows by one, and the info count equals the history total. |
| Recorder.SliceFrom | test-node-server.py:88-88 | Python's `s[i:]` is a suffix, of length −i clamped for negative i. |
| Recorder.FirstMissing | test-node-server.py:24-30 | Gives the first missing required field in checking order, or none iff all are present. |
| Recorder.CompleteIffNothingMissing | test-node-server.py:24-30 | Nothing is missing iff session_id, score, accepted and riddle_id are all present. |
| Recorder.GetOr | test-node-server.py:39-40 | `dict.get` gives the value, or the default when the key is absent. |
| Recorder.ReceiveHandshakeResult | test-node-server.py:17-64 | No JSON object gives 500. A missing field gives 400 naming it, with the log unchanged. Otherwise one record is appended with the caller's fields and defaults, and the reply carries its timestamp. |
| Recorder.MissingSessionNamedFirst | test-node-server.py:24-30 | Without session_id, that field is named whatever else is missing. |
| Recorder.OptionalFieldsDefault | test-node-server.py:39-40 | Missing evaluator and feedback become "unknown" and "No feedback provided". |
| Recorder.HandshakeHistory | test-node-server.py:81-90 | The total is the log length, and the results are the last min(10, n). |
| Recorder.NodeInfo | test-node-server.py:66-79 | The count of received results is the log length. |
| Recorder.RootResults | test-node-server.py:120-120 | The last min(3, n) records. |
| Recorder.SliceFromSnoc | test-node-server.py:88-88 | For k ≥ 2, after one append `s[-k:]` is the old `s[-(k-1):]` followed by the new element. k = 1 is excluded because `s[-0:]` is the whole list. |
| Recorder.AcceptedPostIsNewest | test-node-server.py:43-120 | An accepted post is the newest entry of the history and the root view. Counts grow by one. |

## Left out

- HTTP routing, JSON decoding, CORS, HTML templates: framework behaviour. Only the pure checks and helpers behind the routes are modelled. A body the Go mock node cannot decode (malformed JSON, wrong field types) is not modelled; its `binding:"required"` zero-value rule is.
- Network calls: pings, neighbor queries, DNS lookups, manifest fetches and the registry's callback POST. They become parameters: `pingOk`, `answers`, `lookups`, `fetched`, `reachable`, `post`.
- Concurrency: mutexes, goroutines, tickers and background loops. Only the state change of one iteration is modelled (`RateLimit.Cleanup`, `KeyCache.RemoveExpired`, `Registry.Deactivated`, `NodeService.MarkHealthy`).
- Cryptography and base64: uninterpreted functions in `Keys.Primitives`. The key-length panics of `ed25519.Sign` and `ed25519.Verify` are modelled as `Keys.KeyPanic` results. The laws the round-trip lemmas need are in `Keys.Sound`. Key generation and fresh IDs/UUIDs are parameters.
- `json.Marshal` of a manifest is a parameter. Marshal, unmarshal and file-write failures are not modelled. A key file that fails to unmarshal is `Unreadable`/`Corrupt`.
- File modification-time ordering in `listFiles` is not modelled. A listing is a sequence in the order the store returns. `ioutil.ReadDir`'s name order in `ListAgents` is not modelled either: the listing order is a parameter.
- Storage.Put: a record's file is named by its raw ID, and two records share a file only when their IDs are equal. Go builds the path with `filepath.Join(dir, id + ".json")`, which cleans away "/" and "..". An ID such as "x/../V" therefore writes V's file, and "../blacklist/E" writes into another directory. The model does not promise that behaviour: IDs are taken as plain file names without "/" or "..". An unloadable file with the same name as the saved record is not replaced either, because the model cannot tell whose it was.
- Storage.PutNode: the same raw-ID file naming as `Storage.Put`. A client-supplied node ID containing "/" or ".." reaches another file in Go.
- Storage.PutBlacklistEntry: the same raw-ID file naming as `Storage.Put`.
- KeyStore.KeyPath: the key file is the agent ID + ".key" without `filepath.Join`'s cleaning. In Go "a/../b" names b's key file, so `GenerateAndStoreKeyPair("a/../b")` is refused when b has a key. The model takes agent IDs as plain file names and treats them as distinct files.
- Float arithmetic: `int(d.Hours())`, `int(d.Minutes())` and `ttl.Seconds()` are modelled as exact truncating integer division. Reputation `int64(score*100)` is a parameter (`reputation`). Scores and difficulties are `real` and only compared.
- `evaluateAnswer`, `requestAIEvaluation` and `analyzeAnswerQuality` (internal/registry/service.go:365-453, 526-602): AI and keyword heuristics with float scoring.
- 64-bit overflow of Go `int` and `int64` is not modelled: integers are unbounded.
- White space for `strings.TrimSpace` and `strings.Fields` is the six ASCII white-space bytes. Multi-byte Unicode spaces are not modelled.
- Message metadata and media are not part of the signed payload, so the model's `Message` omits them.
- OAuth, JWT and the device flow (`internal/api/auth.go`, `internal/api/device_auth.go`): library wrappers.
- The older node service behind `src/botnet.go.old/internal/api/api.go` is not part of this model. `LegacyApi.DeleteNeighbor` uses the current node table.
- Uptime and health timestamps of the mock nodes are passed in as `now`. The Python `time.time()` uptime is not modelled.
- A JSON array or string body posted to the Python recorder is not modelled: `body` is either an object or nothing.
