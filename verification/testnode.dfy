/** The Go mock node of `botnet.go.old/src/cmd/testnode/main.go`, the twin
    of the Python recorder: it keeps the handshake results a registry posts
    back, stamped on arrival. Request binding is left to the framework; a
    result arrives here already bound. */
module TestNode {
  import opened Wrappers
  import Recorder

  datatype HandshakeResult = HandshakeResult(
    timestamp: int,
    sessionId: string,
    score: real,
    accepted: bool,
    riddleId: string,
    evaluatorId: string,
    feedback: string)

  datatype Node = Node(nodeId: string, results: seq<HandshakeResult>, startTime: int)

  const NodeId: string := "test-mock-node-localhost"

  /** `NewTestNode`. */
  function NewTestNode(now: int): (r: Node)
    ensures r.nodeId == NodeId && |r.results| == 0 && r.startTime == now
  {
    Node(NodeId, [], now)
  }

  /** `AddResult`: exactly one result is appended, stamped with `now`
      whatever timestamp it came with; earlier results stay as they were. */
  function AddResult(node: Node, result: HandshakeResult, now: int): (r: Node)
    ensures |r.results| == |node.results| + 1
    ensures r.results[..|node.results|] == node.results
    ensures r.results[|node.results|] == result.(timestamp := now)
    ensures r.nodeId == node.nodeId && r.startTime == node.startTime
  {
    node.(results := node.results + [result.(timestamp := now)])
  }

  /** `GetRecentResults`: the results from `len - limit` on, clamped at 0.
      A negative limit starts the slice past the end, which panics; that is
      `None`. */
  function GetRecentResults(results: seq<HandshakeResult>, limit: int): (r: Option<seq<HandshakeResult>>)
    ensures r.None? <==> limit < 0
    ensures r.Some? ==> (|r.value| == (if limit < |results| then limit else |results|)
      && r.value == results[|results| - |r.value|..])
  {
    var start := if |results| - limit < 0 then 0 else |results| - limit;
    if start > |results| then None else Some(results[start..])
  }

  /** For every positive limit the Go view is Python's `results[-limit:]`,
      so the two mocks show the same history and root page. */
  lemma RecentIsPythonTail(results: seq<HandshakeResult>, limit: int)
    requires limit >= 1
    ensures GetRecentResults(results, limit) == Some(Recorder.SliceFrom(results, -limit))
  {
  }

  /** gin's `binding:"required"` on the three required fields: the
      validator rejects a field that holds its type's zero value, so an
      empty session ID, a score of 0 and `accepted: false` all fail. */
  predicate BindingOk(sessionId: string, score: real, accepted: bool) {
    sessionId != "" && score != 0.0 && accepted
  }

  /** The handler's reply: success, with the reply's timestamp read from
      the clock again after storing, or the 400 of a failed binding. */
  datatype Reply =
    | Received(message: string, nodeId: string, timestamp: int)
    | BadRequest

  datatype Outcome = Outcome(reply: Reply, node: Node)

  /** `POST /api/v1/handshake/result` once the body has been decoded: a
      request the binding rejects is answered 400 and nothing is stored. */
  function ReceiveResult(node: Node, sessionId: string, score: real, accepted: bool, riddleId: string,
                         evaluatorId: string, feedback: string, storedAt: int, repliedAt: int): (r: Outcome)
    ensures r.reply.BadRequest? <==> sessionId == "" || score == 0.0 || !accepted
    ensures r.reply.BadRequest? ==> r.node == node
    ensures r.reply.Received? ==>
      && r.node == AddResult(node, HandshakeResult(storedAt, sessionId, score, accepted, riddleId, evaluatorId, feedback), storedAt)
      && r.reply.nodeId == node.nodeId && r.reply.timestamp == repliedAt
  {
    if !BindingOk(sessionId, score, accepted) then Outcome(BadRequest, node)
    else
      var result := HandshakeResult(0, sessionId, score, accepted, riddleId, evaluatorId, feedback);
      Outcome(Received("Handshake result received successfully", node.nodeId, repliedAt), AddResult(node, result, storedAt))
  }

  /** The Go mock cannot record a rejection: a result with `accepted` false
      is refused and the history stays as it was, while the Python mock
      logs the same post. */
  lemma RejectionNotRecorded(node: Node, sessionId: string, score: real, riddleId: string,
                             evaluatorId: string, feedback: string, storedAt: int, repliedAt: int,
                             log: seq<Recorder.Record>, data: map<string, Recorder.Json>, now: string)
    requires Recorder.Complete(data) && data[Recorder.AcceptedField] == Recorder.Bool(false)
    ensures var out := ReceiveResult(node, sessionId, score, false, riddleId, evaluatorId, feedback, storedAt, repliedAt);
      out.reply == BadRequest && HandshakeHistory(out.node) == HandshakeHistory(node)
    ensures var py := Recorder.ReceiveHandshakeResult(log, Some(data), now);
      py.reply.Received? && |py.log| == |log| + 1 && py.log[|log|].accepted == Recorder.Bool(false)
  {
  }

  /** `GET /api/v1/handshake/history`: the number of results and the last
      ten. */
  datatype History = History(totalResults: int, recentResults: seq<HandshakeResult>)

  function HandshakeHistory(node: Node): (r: History)
    ensures r.totalResults == |node.results|
    ensures |r.recentResults| <= 10 && |r.recentResults| <= |node.results|
    ensures r.recentResults == node.results[|node.results| - |r.recentResults|..]
    ensures |node.results| >= 10 ==> |r.recentResults| == 10
  {
    History(|node.results|, GetRecentResults(node.results, 10).value)
  }

  /** The two capabilities the mock node advertises. */
  const InfoCapabilities: seq<string> := ["handshake_testing", "callback_verification"]

  /** `GET /api/v1/info`: the fixed version, capabilities and status, the
      number of results received, and the uptime. Go reports the uptime as
      float seconds (`uptime_seconds`); the model keeps the exact elapsed
      time in nanoseconds, `uptimeNs`, from which Go's value is
      `uptimeNs / 1e9`. */
  datatype Info = Info(nodeId: string, version: string, capabilities: seq<string>, status: string,
                       resultsReceived: int, uptimeNs: int)

  function NodeInfo(node: Node, now: int): (r: Info)
    ensures r.resultsReceived == |node.results| && r.nodeId == node.nodeId && r.uptimeNs == now - node.startTime
    ensures r.capabilities == InfoCapabilities && r.status == "active"
  {
    Info(node.nodeId, "1.0.0", InfoCapabilities, "active", |node.results|, now - node.startTime)
  }

  /** The results the root page shows: the last three. */
  function RootResults(node: Node): (r: seq<HandshakeResult>)
    ensures |r| <= 3 && |r| <= |node.results|
    ensures r == node.results[|node.results| - |r|..]
    ensures |node.results| >= 3 ==> |r| == 3
  {
    GetRecentResults(node.results, 3).value
  }

  /** A stored result is the newest entry of the history, stamped with the
      time it was stored, and the total grows by one; the info count moves
      with the history's total. */
  lemma ReceivedIsNewest(node: Node, sessionId: string, score: real, accepted: bool, riddleId: string,
                         evaluatorId: string, feedback: string, storedAt: int, repliedAt: int, now: int)
    requires BindingOk(sessionId, score, accepted)
    ensures var after := ReceiveResult(node, sessionId, score, accepted, riddleId, evaluatorId, feedback, storedAt, repliedAt).node;
      NodeInfo(after, now).resultsReceived == HandshakeHistory(after).totalResults == NodeInfo(node, now).resultsReceived + 1
    ensures var after := ReceiveResult(node, sessionId, score, accepted, riddleId, evaluatorId, feedback, storedAt, repliedAt).node;
      var h := HandshakeHistory(after);
      && h.totalResults == |node.results| + 1
      && h.recentResults[|h.recentResults| - 1] == HandshakeResult(storedAt, sessionId, score, accepted, riddleId, evaluatorId, feedback)
      && RootResults(after)[|RootResults(after)| - 1].sessionId == sessionId
  {
  }
}
