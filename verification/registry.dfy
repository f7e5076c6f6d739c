/** The registry service of `internal/registry/service.go`: domain
    admission, node and agent registration, the blacklist, and the
    handshake session lifecycle through which an unknown node earns its
    registration. Storage is the `Storage` model; random riddle choice,
    challenge tokens and UUIDs are parameters, and the answer evaluation and
    the callback POST run elsewhere and hand in their outcomes. */
module Registry {
  import opened Wrappers
  import opened Types
  import GoStrings
  import GoTime
  import Storage

  // ---------------------------------------------------------------------------
  // Domain admission

  /** What one entry of the allow-list admits: everything ("*"), exactly
      itself, or for "*.p" the domain p and every domain ending in ".p". */
  predicate EntryAllows(entry: string, domain: string) {
    || entry == "*"
    || entry == domain
    || (GoStrings.HasPrefix(entry, "*.") &&
        var parent := GoStrings.TrimPrefix(entry, "*.");
        GoStrings.HasSuffix(domain, "." + parent) || domain == parent)
  }

  /** `isDomainAllowed`: the entries are tried in order and the first one
      that admits the domain decides. */
  function IsDomainAllowed(allowed: seq<string>, domain: string): (r: bool)
    ensures r <==> exists i :: 0 <= i < |allowed| && EntryAllows(allowed[i], domain)
  {
    if |allowed| == 0 then false
    else if EntryAllows(allowed[0], domain) then true
    else
      var r := IsDomainAllowed(allowed[1..], domain);
      assert r ==> exists i :: 0 <= i < |allowed| && EntryAllows(allowed[i], domain) by {
        if r {
          var j :| 0 <= j < |allowed[1..]| && EntryAllows(allowed[1..][j], domain);
          assert allowed[j + 1] == allowed[1..][j];
        }
      }
      assert (exists i :: 0 <= i < |allowed| && EntryAllows(allowed[i], domain)) ==> r by {
        if exists i :: 0 <= i < |allowed| && EntryAllows(allowed[i], domain) {
          var i :| 0 <= i < |allowed| && EntryAllows(allowed[i], domain);
          assert allowed[1..][i - 1] == allowed[i];
        }
      }
      r
  }

  /** A "*" entry admits every domain; an entry equal to the domain admits it. */
  lemma StarAndExactAllow(allowed: seq<string>, domain: string)
    ensures "*" in allowed ==> IsDomainAllowed(allowed, domain)
    ensures domain in allowed ==> IsDomainAllowed(allowed, domain)
  {
    if "*" in allowed {
      var i :| 0 <= i < |allowed| && allowed[i] == "*";
      assert EntryAllows(allowed[i], domain);
    }
    if domain in allowed {
      var i :| 0 <= i < |allowed| && allowed[i] == domain;
      assert EntryAllows(allowed[i], domain);
    }
  }

  /** "*.p" admits p itself and every sub-domain `x.p`. */
  lemma WildcardAllowsSubdomains(allowed: seq<string>, parent: string, sub: string)
    requires "*." + parent in allowed
    ensures IsDomainAllowed(allowed, parent)
    ensures IsDomainAllowed(allowed, sub + "." + parent)
  {
    var i :| 0 <= i < |allowed| && allowed[i] == "*." + parent;
    assert GoStrings.HasPrefix(allowed[i], "*.");
    assert GoStrings.TrimPrefix(allowed[i], "*.") == parent;
    assert EntryAllows(allowed[i], parent);
    var d := sub + "." + parent;
    assert d[|d| - |"." + parent|..] == "." + parent;
    assert EntryAllows(allowed[i], d);
  }

  /** A wildcard is anchored at a label boundary: "*.example.com" does not
      admit "badexample.com", and an empty list admits nothing. */
  lemma WildcardNeedsLabelBoundary()
    ensures !IsDomainAllowed(["*.example.com"], "badexample.com")
    ensures !IsDomainAllowed([], "example.com")
  {
    assert GoStrings.TrimPrefix("*.example.com", "*.") == "example.com";
    assert !GoStrings.HasSuffix("badexample.com", ".example.com") by {
      assert "badexample.com"[2..] != ".example.com" by {
        assert "badexample.com"[2..][0] == 'd';
      }
    }
    assert !EntryAllows("*.example.com", "badexample.com");
  }

  // ---------------------------------------------------------------------------
  // Registration

  datatype RegisterError =
    | DomainNotAllowed
    | DomainAlreadyRegistered
    | DomainBlacklisted
    | NodeBlacklisted

  /** The registry's stored state: its allow-list and the node and
      blacklist directories. */
  datatype Registry = Registry(
    allowed: seq<string>,
    nodes: seq<Option<Node>>,
    blacklist: seq<Option<BlacklistEntry>>)

  const DefaultVersion: string := "1.0.0"
  const DefaultCapabilities: seq<string> := ["messaging", "agent_hosting"]

  /** The nodes the duplicate check sees: the first page of 1000 files. */
  function ExistingNodes(nodes: seq<Option<Node>>): (r: seq<Node>)
    ensures forall k :: 0 <= k < |r| ==> Some(r[k]) in nodes
    ensures |nodes| > 0 && nodes[0].Some? ==> |r| > 0 && r[0] == nodes[0].value
  {
    Storage.ListNodes(nodes, 1, 1000).value.items
  }

  /** Another node (a different ID) already holds the domain. */
  predicate DomainHeldByOther(existing: seq<Node>, n: Node) {
    exists k :: 0 <= k < |existing| && existing[k].domain == n.domain && existing[k].id != n.id
  }

  /** The node as `RegisterNode` hands it to `SaveNode`. */
  function Admitted(n: Node, now: int): (a: Node)
    ensures a.status == "active" && a.lastSeen == now
    ensures a.version == (if n.version == "" then DefaultVersion else n.version)
    ensures a.capabilities == (if n.capabilities.None? then Some(DefaultCapabilities) else n.capabilities)
    ensures a.(status := n.status, lastSeen := n.lastSeen, version := n.version, capabilities := n.capabilities) == n
  {
    n.(status := "active",
       lastSeen := now,
       version := if n.version == "" then DefaultVersion else n.version,
       capabilities := if n.capabilities.None? then Some(DefaultCapabilities) else n.capabilities)
  }

  /** `RegisterNode`: four admission checks in a fixed order, the first
      failure decides and nothing is written; on success the node, with
      its defaults, becomes the newest file of the node directory. */
  function RegisterNode(reg: Registry, n: Node, now: int, freshId: string): (r: Result<Registry, RegisterError>)
    ensures r == Err(DomainNotAllowed) <==> !IsDomainAllowed(reg.allowed, n.domain)
    ensures r == Err(DomainAlreadyRegistered) <==>
      IsDomainAllowed(reg.allowed, n.domain) && DomainHeldByOther(ExistingNodes(reg.nodes), n)
    ensures r == Err(DomainBlacklisted) <==>
      IsDomainAllowed(reg.allowed, n.domain) && !DomainHeldByOther(ExistingNodes(reg.nodes), n)
      && Storage.IsBlacklisted(reg.blacklist, "domain", n.domain, now)
    ensures r == Err(NodeBlacklisted) <==>
      IsDomainAllowed(reg.allowed, n.domain) && !DomainHeldByOther(ExistingNodes(reg.nodes), n)
      && !Storage.IsBlacklisted(reg.blacklist, "domain", n.domain, now)
      && Storage.IsBlacklisted(reg.blacklist, "node", n.id, now)
    ensures r.Ok? ==>
      && r.value.allowed == reg.allowed && r.value.blacklist == reg.blacklist
      && |r.value.nodes| > 0 && r.value.nodes[0].Some?
      && var saved := r.value.nodes[0].value;
         && saved.domain == n.domain && saved.url == n.url && saved.publicKey == n.publicKey
         && saved.status == "active" && saved.lastSeen == now
         && saved.updatedAt == now && saved.reputation == n.reputation
         && saved.id == (if n.id == "" then freshId else n.id)
         && saved.createdAt == (if n.id == "" then now else n.createdAt)
         && saved.version == (if n.version == "" then DefaultVersion else n.version)
         && saved.capabilities == (if n.capabilities.None? then Some(DefaultCapabilities) else n.capabilities)
         && (forall k :: 1 <= k < |r.value.nodes| ==>
               r.value.nodes[k] in reg.nodes && !(r.value.nodes[k].Some? && r.value.nodes[k].value.id == saved.id))
         && (forall i :: 0 <= i < |reg.nodes| && !(reg.nodes[i].Some? && reg.nodes[i].value.id == saved.id) ==>
               reg.nodes[i] in r.value.nodes)
  {
    if !IsDomainAllowed(reg.allowed, n.domain) then Err(DomainNotAllowed)
    else if DomainHeldByOther(ExistingNodes(reg.nodes), n) then Err(DomainAlreadyRegistered)
    else if Storage.IsBlacklisted(reg.blacklist, "domain", n.domain, now) then Err(DomainBlacklisted)
    else if Storage.IsBlacklisted(reg.blacklist, "node", n.id, now) then Err(NodeBlacklisted)
    else
      var saved := Storage.SaveNode(Admitted(n, now), now, freshId);
      Ok(reg.(nodes := Storage.PutNode(reg.nodes, saved)))
  }

  /** Once a node is registered its domain is taken: any node with another
      ID that asks for the same (admitted) domain is refused. */
  lemma RegisteredDomainIsTaken(reg: Registry, n: Node, now: int, freshId: string, m: Node, later: int, freshId': string)
    requires RegisterNode(reg, n, now, freshId).Ok?
    requires m.domain == n.domain
    requires m.id != RegisterNode(reg, n, now, freshId).value.nodes[0].value.id
    ensures RegisterNode(RegisterNode(reg, n, now, freshId).value, m, later, freshId') == Err(DomainAlreadyRegistered)
  {
    var reg' := RegisterNode(reg, n, now, freshId).value;
    var existing := ExistingNodes(reg'.nodes);
    assert existing[0] == reg'.nodes[0].value;
    assert DomainHeldByOther(existing, m);
  }

  /** `RegisterAgent`: default status "online" and activity/creation times
      of now, then the agent is saved. */
  function RegisterAgent(a: Agent, now: int, freshId: string): (saved: Agent)
    ensures saved.status == (if a.status == "" then "online" else a.status)
    ensures saved.lastActive == (if GoTime.IsZero(a.lastActive) then now else a.lastActive)
    ensures a.id == "" || GoTime.IsZero(a.createdAt) ==> saved.createdAt == now
    ensures a.id != "" && !GoTime.IsZero(a.createdAt) ==> saved.createdAt == a.createdAt
    ensures saved.id == (if a.id == "" then freshId else a.id)
    ensures saved.name == a.name && saved.nodeId == a.nodeId && saved.publicKey == a.publicKey
  {
    var defaulted := a.(
      status := if a.status == "" then "online" else a.status,
      lastActive := if GoTime.IsZero(a.lastActive) then now else a.lastActive,
      createdAt := if GoTime.IsZero(a.createdAt) then now else a.createdAt);
    Storage.SaveAgent(defaulted, now, freshId)
  }

  /** Registering an agent a second time, later, keeps it as the first
      registration left it: its ID, creation and activity times are set. */
  lemma RegisterAgentIdempotent(a: Agent, now: int, later: int, id1: string, id2: string)
    requires id1 != "" && !GoTime.IsZero(now)
    ensures RegisterAgent(RegisterAgent(a, now, id1), later, id2) == RegisterAgent(a, now, id1)
  {
  }

  /** `AddToBlacklist`: the entry is stored as "active" in the file its ID
      names, so it overwrites an earlier entry with the same ID; it becomes
      the newest file. */
  function AddToBlacklist(reg: Registry, e: BlacklistEntry, now: int, freshId: string): (reg': Registry)
    ensures reg'.allowed == reg.allowed && reg'.nodes == reg.nodes
    ensures |reg'.blacklist| > 0 && reg'.blacklist[0].Some?
    ensures var saved := reg'.blacklist[0].value;
      && saved.status == "active"
      && saved.id == (if e.id == "" then freshId else e.id)
      && saved.createdAt == (if e.id == "" then now else e.createdAt)
      && saved.(id := e.id, createdAt := e.createdAt, status := e.status) == e
      && (forall k :: 1 <= k < |reg'.blacklist| ==>
            reg'.blacklist[k] in reg.blacklist && !(reg'.blacklist[k].Some? && reg'.blacklist[k].value.id == saved.id))
      && (forall i :: 0 <= i < |reg.blacklist| && !(reg.blacklist[i].Some? && reg.blacklist[i].value.id == saved.id) ==>
            reg.blacklist[i] in reg'.blacklist)
  {
    var saved := Storage.SaveBlacklistEntry(e.(status := "active"), now, freshId);
    reg.(blacklist := Storage.PutBlacklistEntry(reg.blacklist, saved))
  }

  /** Re-adding an ID replaces that entry: when only entries with that ID
      block a target, and the new entry names another target, the target
      is free again. */
  lemma OverwriteUnblocks(reg: Registry, e: BlacklistEntry, now: int, freshId: string, kind: string, target: string, later: int)
    requires e.id != ""
    requires forall i :: 0 <= i < |reg.blacklist| && reg.blacklist[i].Some? && Storage.Blocks(reg.blacklist[i].value, kind, target, later) ==>
      reg.blacklist[i].value.id == e.id
    requires e.kind != kind || e.targetId != target
    ensures !Storage.IsBlacklisted(AddToBlacklist(reg, e, now, freshId).blacklist, kind, target, later)
  {
    var b := AddToBlacklist(reg, e, now, freshId).blacklist;
    forall k | 0 <= k < |b| && b[k].Some? ensures !Storage.Blocks(b[k].value, kind, target, later) {
      if k > 0 {
        var i :| 0 <= i < |reg.blacklist| && reg.blacklist[i] == b[k];
      }
    }
  }

  /** A blacklisted target without an expiry can no longer register. */
  lemma BlacklistBlocksRegistration(reg: Registry, e: BlacklistEntry, now: int, freshId: string, n: Node, later: int, freshId': string)
    requires e.expiresAt.None? && e.kind == "domain" && e.targetId == n.domain
    ensures RegisterNode(AddToBlacklist(reg, e, now, freshId), n, later, freshId').Err?
  {
    var reg' := AddToBlacklist(reg, e, now, freshId);
    assert Storage.Blocks(reg'.blacklist[0].value, "domain", n.domain, later);
  }

  /** `CleanupInactiveNodes`: of the first 1000 nodes, the active ones last
      seen before `now - threshold` are saved again as "inactive"; the
      result is the list of nodes handed to `SaveNode`, in listing order. */
  /** A node the sweep deactivates. */
  predicate Stale(n: Node, threshold: int, now: int) {
    n.status == "active" && n.lastSeen < now - threshold
  }

  function Deactivated(nodes: seq<Node>, threshold: int, now: int): (r: seq<Node>)
    ensures |r| <= |nodes|
    ensures forall k :: 0 <= k < |r| ==>
      (r[k].status == "inactive" && Stale(r[k].(status := "active"), threshold, now) && r[k].(status := "active") in nodes)
    ensures forall i :: 0 <= i < |nodes| && Stale(nodes[i], threshold, now) ==> nodes[i].(status := "inactive") in r
  {
    if |nodes| == 0 then []
    else
      var n := nodes[0];
      var rest := Deactivated(nodes[1..], threshold, now);
      assert forall i :: 1 <= i < |nodes| ==> nodes[i] == nodes[1..][i - 1];
      assert forall k :: 0 <= k < |rest| ==> rest[k].(status := "active") in nodes by {
        forall k | 0 <= k < |rest| ensures rest[k].(status := "active") in nodes {
          assert rest[k].(status := "active") in nodes[1..];
        }
      }
      if Stale(n, threshold, now) then [n.(status := "inactive")] + rest else rest
  }

  function CleanupInactiveNodes(nodes: seq<Option<Node>>, threshold: int, now: int): seq<Node> {
    Deactivated(ExistingNodes(nodes), threshold, now)
  }

  /** A second sweep over the swept nodes finds nothing more to do. */
  lemma {:induction false} CleanupIdempotent(nodes: seq<Node>, threshold: int, now: int)
    ensures Deactivated(Deactivated(nodes, threshold, now), threshold, now) == []
  {
    var once := Deactivated(nodes, threshold, now);
    if |once| > 0 {
      assert once[0].status == "inactive";
      NoneActive(once, threshold, now);
    }
  }

  lemma {:induction false} NoneActive(nodes: seq<Node>, threshold: int, now: int)
    requires forall k :: 0 <= k < |nodes| ==> nodes[k].status != "active"
    ensures Deactivated(nodes, threshold, now) == []
  {
    if |nodes| > 0 {
      NoneActive(nodes[1..], threshold, now);
    }
  }

  // ---------------------------------------------------------------------------
  // Handshake sessions

  datatype HandshakeError =
    | NoRiddlesAvailable
    | SessionNotFound
    | SessionExpired
    | SessionNotPending

  /** A stored session after an operation, and the error it reported. */
  datatype SessionStep = SessionStep(session: Option<HandshakeSession>, error: Option<HandshakeError>)

  const HandshakeTimeout: int := 5 * GoTime.Minute
  const AcceptThreshold: real := 0.7

  /** `StartHandshake`: a pending session for the requesting domain, bound
      to the chosen riddle, expiring five minutes from now. */
  function StartHandshake(domain: string, host: string, riddle: Option<Riddle>, token: string, freshId: string, now: int)
    : (r: Result<HandshakeSession, HandshakeError>)
    ensures riddle.None? <==> r == Err(NoRiddlesAvailable)
    ensures r.Ok? ==>
      && r.value.status == Pending && r.value.requestingNode == domain
      && r.value.respondingNode == host && r.value.riddleId == riddle.value.id
      && r.value.challengeToken == token && r.value.expiresAt == now + HandshakeTimeout
  {
    match riddle
    case None => Err(NoRiddlesAvailable)
    case Some(q) =>
      Ok(HandshakeSession(freshId, domain, host, q.id, token, "", "", 0.0, Pending,
                          now + HandshakeTimeout, now, None))
  }

  /** `ProcessRiddleResponse`: expiry is checked before the state, so even
      a session that is no longer pending is marked "expired" once its
      deadline has passed; only a live pending session takes the answer. */
  function ProcessRiddleResponse(stored: Option<HandshakeSession>, answer: string, callbackDomain: string, now: int)
    : (r: SessionStep)
    ensures stored.None? ==> r == SessionStep(None, Some(SessionNotFound))
    ensures stored.Some? && now > stored.value.expiresAt ==>
      r == SessionStep(Some(stored.value.(status := Expired)), Some(SessionExpired))
    ensures stored.Some? && now <= stored.value.expiresAt && stored.value.status != Pending ==>
      r == SessionStep(stored, Some(SessionNotPending))
    ensures r.error.None? <==> stored.Some? && now <= stored.value.expiresAt && stored.value.status == Pending
    ensures r.error.None? ==>
      && r.session.Some? && r.session.value.status == Answered
      && r.session.value.answer == answer && r.session.value.callbackDomain == callbackDomain
      && r.session.value.(status := Pending, answer := stored.value.answer, callbackDomain := stored.value.callbackDomain) == stored.value
  {
    match stored
    case None => SessionStep(None, Some(SessionNotFound))
    case Some(s) =>
      if now > s.expiresAt then SessionStep(Some(s.(status := Expired)), Some(SessionExpired))
      else if s.status != Pending then SessionStep(stored, Some(SessionNotPending))
      else SessionStep(Some(s.(answer := answer, callbackDomain := callbackDomain, status := Answered)), None)
  }

  /** The evaluated session, whether the riddle's statistics record a
      success, and whether the callback is started. */
  datatype Evaluation = Evaluation(session: HandshakeSession, riddleSuccess: bool, callbackStarted: bool)

  /** `ProcessHandshakeResult`: the score is recorded and the session
      completed now; it passes iff accepted with a score of at least 0.7. */
  function ProcessHandshakeResult(stored: Option<HandshakeSession>, score: real, accepted: bool, now: int)
    : (r: Result<Evaluation, HandshakeError>)
    ensures stored.None? <==> r == Err(SessionNotFound)
    ensures r.Ok? ==>
      && r.value.session.score == score && r.value.session.completedAt == Some(now)
      && (r.value.session.status == Evaluated <==> accepted && score >= AcceptThreshold)
      && (r.value.session.status == Failed <==> !(accepted && score >= AcceptThreshold))
      && r.value.riddleSuccess == (r.value.session.status == Evaluated)
      && r.value.callbackStarted == r.value.riddleSuccess
      && r.value.session.id == stored.value.id && r.value.session.riddleId == stored.value.riddleId
      && r.value.session.callbackDomain == stored.value.callbackDomain
  {
    match stored
    case None => Err(SessionNotFound)
    case Some(s) =>
      var passed := accepted && score >= AcceptThreshold;
      Ok(Evaluation(
        s.(score := score, completedAt := Some(now), status := if passed then Evaluated else Failed),
        passed, passed))
  }

  /** The callback URL: plain http only for local test domains. */
  function CallbackUrl(callbackDomain: string): (url: string)
    ensures var local := GoStrings.Contains(callbackDomain, "localhost") || GoStrings.Contains(callbackDomain, "127.0.0.1");
      url == (if local then "http" else "https") + "://" + callbackDomain + "/api/v1/handshake/result"
  {
    if GoStrings.Contains(callbackDomain, "localhost") || GoStrings.Contains(callbackDomain, "127.0.0.1")
    then "http://" + callbackDomain + "/api/v1/handshake/result"
    else "https://" + callbackDomain + "/api/v1/handshake/result"
  }

  /** Any domain mentioning localhost is called back over http. */
  lemma LocalCallbackUsesHttp(prefix: string, suffix: string)
    ensures GoStrings.HasPrefix(CallbackUrl(prefix + "localhost" + suffix), "http://")
    ensures GoStrings.HasPrefix(CallbackUrl(prefix + "127.0.0.1" + suffix), "http://")
  {
    GoStrings.ContainsInfix(prefix, "localhost", suffix);
    GoStrings.ContainsInfix(prefix, "127.0.0.1", suffix);
  }

  /** What the callback POST produced: a transport error or a status code. */
  datatype PostResult = PostFailed | Responded(statusCode: int)

  const HandshakeCapabilities: seq<string> := ["messaging", "agent_hosting", "riddle_solving"]

  /** The node the registry registers after a successful callback.
      `reputation` is the handshake score scaled to an integer. */
  function HandshakeNode(requestingNode: string, reputation: int): Node {
    Node("", requestingNode, "https://" + requestingNode, "", GoTime.ZeroTime, reputation,
         "active", DefaultVersion, Some(HandshakeCapabilities), GoTime.ZeroTime, GoTime.ZeroTime)
  }

  /** The session and registry after the callback. */
  datatype CallbackStep = CallbackStep(session: HandshakeSession, registry: Registry)

  /** `performCallbackVerification`: only a 200 answer registers the node,
      and only a successful registration completes the session. */
  function CallbackOutcome(session: HandshakeSession, reg: Registry, post: PostResult, reputation: int, now: int, freshId: string)
    : (r: CallbackStep)
    ensures r.session.status == Completed <==>
      post == Responded(200) && RegisterNode(reg, HandshakeNode(session.requestingNode, reputation), now, freshId).Ok?
    ensures r.session.status == RegistrationFailed <==>
      post == Responded(200) && RegisterNode(reg, HandshakeNode(session.requestingNode, reputation), now, freshId).Err?
    ensures r.session.status == CallbackFailed <==> post != Responded(200)
    ensures r.registry != reg ==> r.session.status == Completed
    ensures r.session.status == Completed ==>
      && |r.registry.nodes| > 0 && r.registry.nodes[0].Some?
      && r.registry.nodes[0].value.domain == session.requestingNode
      && r.registry.nodes[0].value.capabilities == Some(HandshakeCapabilities)
    ensures r.session.completedAt == (if post == PostFailed then session.completedAt else Some(now))
    ensures r.session.(status := session.status, completedAt := session.completedAt) == session
  {
    match post
    case PostFailed => CallbackStep(session.(status := CallbackFailed), reg)
    case Responded(code) =>
      if code == 200 then
        match RegisterNode(reg, HandshakeNode(session.requestingNode, reputation), now, freshId)
        case Ok(reg') => CallbackStep(session.(status := Completed, completedAt := Some(now)), reg')
        case Err(_) => CallbackStep(session.(status := RegistrationFailed, completedAt := Some(now)), reg)
      else CallbackStep(session.(status := CallbackFailed, completedAt := Some(now)), reg)
  }

  /** A completed callback leaves the requesting domain taken: no node with
      another ID can register it afterwards. */
  lemma CompletedCallbackTakesDomain(session: HandshakeSession, reg: Registry, post: PostResult, reputation: int,
                                     now: int, freshId: string, m: Node, later: int, freshId': string)
    requires var r := CallbackOutcome(session, reg, post, reputation, now, freshId);
      r.session.status == Completed && m.domain == session.requestingNode && m.id != r.registry.nodes[0].value.id
    ensures RegisterNode(CallbackOutcome(session, reg, post, reputation, now, freshId).registry, m, later, freshId')
      == Err(DomainAlreadyRegistered)
  {
    RegisteredDomainIsTaken(reg, HandshakeNode(session.requestingNode, reputation), now, freshId, m, later, freshId');
  }

  /** The operations that move a handshake session. */
  datatype SessionOp = Answer | Expire | Evaluate | Callback

  /** The lifecycle: which status change each operation may make. Only a
      pending session takes an answer; any session past its deadline may be
      marked expired; the evaluation has no state check; the callback
      follows a passing evaluation. */
  predicate LifecycleStep(op: SessionOp, from: SessionStatus, to: SessionStatus) {
    match op
    case Answer => from == Pending && to == Answered
    case Expire => to == Expired
    case Evaluate => to == Evaluated || to == Failed
    case Callback => from == Evaluated && (to == Completed || to == CallbackFailed || to == RegistrationFailed)
  }

  /** Every status change the operations make is a lifecycle step of that
      operation: an answer that changes the status either answers a pending
      session or expires one past its deadline, and the callback only ever
      follows a passing evaluation. */
  lemma OperationsFollowLifecycle(stored: HandshakeSession, answer: string, cb: string, score: real, accepted: bool,
                                  reg: Registry, post: PostResult, reputation: int, now: int, freshId: string)
    ensures var r := ProcessRiddleResponse(Some(stored), answer, cb, now);
      r.session.value.status != stored.status ==>
        (LifecycleStep(Answer, stored.status, r.session.value.status) && now <= stored.expiresAt)
        || (LifecycleStep(Expire, stored.status, r.session.value.status) && now > stored.expiresAt)
    ensures var e := ProcessHandshakeResult(Some(stored), score, accepted, now).value;
      LifecycleStep(Evaluate, stored.status, e.session.status)
      && (e.callbackStarted ==> LifecycleStep(Callback, e.session.status, CallbackOutcome(e.session, reg, post, reputation, now, freshId).session.status))
      && (!e.callbackStarted ==> e.session.status == Failed)
  {
  }

  /** `AddRiddle`: the riddle as saved, with the registry as default owner
      and author and out-of-range difficulties reset to 0.5. */
  function AddRiddle(q: Riddle): (saved: Riddle)
    ensures saved.nodeId == (if q.nodeId == "" then "registry" else q.nodeId)
    ensures saved.createdBy == (if q.createdBy == "" then "registry-service" else q.createdBy)
    ensures 0.1 <= saved.difficulty <= 1.0
    ensures 0.1 <= q.difficulty <= 1.0 ==> saved.difficulty == q.difficulty
    ensures !(0.1 <= q.difficulty <= 1.0) ==> saved.difficulty == 0.5
    ensures saved.(nodeId := q.nodeId, createdBy := q.createdBy, difficulty := q.difficulty) == q
  {
    q.(nodeId := if q.nodeId == "" then "registry" else q.nodeId,
       createdBy := if q.createdBy == "" then "registry-service" else q.createdBy,
       difficulty := if q.difficulty < 0.1 || q.difficulty > 1.0 then 0.5 else q.difficulty)
  }

  /** Adding a riddle twice changes nothing more. */
  lemma AddRiddleIdempotent(q: Riddle)
    ensures AddRiddle(AddRiddle(q)) == AddRiddle(q)
  {
  }
}
