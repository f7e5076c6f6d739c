/** The records of `pkg/types/types.go` that the modelled operations read or
    write. Timestamps are instants in nanoseconds (see `GoTime`); a Go
    `*time.Time` that may be nil is an `Option<int>`; a slice that may be nil
    (where the code tests for nil) is an `Option<seq<...>>`; Go `float64`
    scores and difficulties are `real`. Free-form `map[string]interface{}`
    metadata is omitted because nothing modelled reads it. */
module Types {
  import opened Wrappers

  datatype Node = Node(
    id: string,
    domain: string,
    url: string,
    publicKey: string,
    lastSeen: int,
    reputation: int,
    status: string,
    version: string,
    capabilities: Option<seq<string>>,
    createdAt: int,
    updatedAt: int)

  datatype Agent = Agent(
    id: string,
    name: string,
    nodeId: string,
    publicKey: string,
    displayName: string,
    capabilities: seq<string>,
    status: string,
    lastActive: int,
    createdAt: int)

  datatype Message = Message(
    id: string,
    kind: string,
    authorId: string,
    recipientId: string,
    parentId: string,
    text: string,
    signature: string,
    timestamp: int)

  datatype Challenge = Challenge(
    id: string,
    kind: string,
    issuerId: string,
    targetId: string,
    question: string,
    answer: string,
    status: string,
    difficulty: int,
    expiresAt: int,
    completedAt: Option<int>,
    createdAt: int)

  datatype CreditTransaction = CreditTransaction(
    id: string,
    fromId: string,
    toId: string,
    amount: int,
    kind: string,
    status: string,
    timestamp: int)

  datatype ReputationEntry = ReputationEntry(
    agentId: string,
    change: int,
    reason: string,
    sourceId: string,
    timestamp: int)

  datatype BlacklistEntry = BlacklistEntry(
    id: string,
    kind: string,
    targetId: string,
    reason: string,
    reporterId: string,
    status: string,
    createdAt: int,
    expiresAt: Option<int>)

  datatype Riddle = Riddle(
    id: string,
    nodeId: string,
    category: string,
    difficulty: real,
    question: string,
    expectedType: string,
    usageCount: int,
    successRate: real,
    createdAt: int,
    createdBy: string)

  /** The states a handshake session passes through; `Name` is the string the
      session stores. */
  datatype SessionStatus =
    | Pending | Answered | Evaluated | Failed | Expired
    | Completed | CallbackFailed | RegistrationFailed
  {
    function Name(): string {
      match this
      case Pending => "pending"
      case Answered => "answered"
      case Evaluated => "evaluated"
      case Failed => "failed"
      case Expired => "expired"
      case Completed => "completed"
      case CallbackFailed => "callback_failed"
      case RegistrationFailed => "registration_failed"
    }
  }

  datatype HandshakeSession = HandshakeSession(
    id: string,
    requestingNode: string,
    respondingNode: string,
    riddleId: string,
    challengeToken: string,
    callbackDomain: string,
    answer: string,
    score: real,
    status: SessionStatus,
    expiresAt: int,
    createdAt: int,
    completedAt: Option<int>)

  /** The addresses a node manifest advertises. */
  datatype NodeEndpoints = NodeEndpoints(federation: string, api: string, webUi: string)

  datatype RateLimitInfo = RateLimitInfo(messagesPerHour: int, federationPerHour: int)

  /** The self-description a node serves at `/.well-known/botnet-node.json`
      and signs with its node key. The record is not declared in
      `pkg/types/types.go`; its fields are those that `manifest.go` copies. */
  datatype NodeManifest = NodeManifest(
    nodeId: string,
    version: string,
    publicKey: string,
    endpoints: NodeEndpoints,
    capabilities: seq<string>,
    rateLimit: RateLimitInfo,
    updatedAt: int,
    signature: string)
}
