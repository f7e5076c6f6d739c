/** The Python mock node `test-node-server.py`: it records the handshake
    results a registry posts back and shows them. The log is the module-level
    list; `now` is the ISO text `datetime.now().isoformat()` gives. */
module Recorder {
  import opened Wrappers

  /** A JSON value as Flask's `get_json` returns it. */
  datatype Json =
    | Null
    | Bool(b: bool)
    | Number(n: real)
    | Str(s: string)
    | Array(items: seq<Json>)
    | Object(fields: map<string, Json>)

  /** Python's `s[i:]`: a negative start counts from the end and is clamped
      at the front; a start past the end gives the empty list. */
  function SliceFrom<T>(s: seq<T>, i: int): (r: seq<T>)
    ensures i >= 0 ==> |r| == if i <= |s| then |s| - i else 0
    ensures i < 0 ==> |r| == if -i <= |s| then -i else |s|
    ensures r == s[|s| - |r|..]
  {
    if i < 0 then (if |s| + i < 0 then s else s[|s| + i..])
    else if i <= |s| then s[i..]
    else []
  }

  const SessionIdField: string := "session_id"
  const ScoreField: string := "score"
  const AcceptedField: string := "accepted"
  const RiddleIdField: string := "riddle_id"
  const EvaluatorIdField: string := "evaluator_id"
  const FeedbackField: string := "feedback"

  /** The required fields, in the order they are checked. */
  const RequiredFields: seq<string> := [SessionIdField, ScoreField, AcceptedField, RiddleIdField]

  /** The first required field, in checking order, missing from `data`. */
  function FirstMissing(data: map<string, Json>, fields: seq<string>): (r: Option<string>)
    ensures r.None? <==> forall i :: 0 <= i < |fields| ==> fields[i] in data
    ensures r.Some? ==> exists i :: (0 <= i < |fields| && fields[i] == r.value && r.value !in data
      && forall j :: 0 <= j < i ==> fields[j] in data)
  {
    if |fields| == 0 then None
    else if fields[0] !in data then Some(fields[0])
    else
      var r := FirstMissing(data, fields[1..]);
      assert forall k :: 1 <= k < |fields| ==> fields[k] == fields[1..][k - 1];
      if r.Some? then
        var i :| 0 <= i < |fields[1..]| && fields[1..][i] == r.value && r.value !in data
          && forall j :: 0 <= j < i ==> fields[1..][j] in data;
        assert forall j :: 0 <= j < i + 1 ==> fields[j] in data by {
          forall j | 0 <= j < i + 1 ensures fields[j] in data {
            if j > 0 { assert fields[j] == fields[1..][j - 1]; }
          }
        }
        r
      else r
  }

  /** All four required fields are present. */
  predicate Complete(data: map<string, Json>) {
    SessionIdField in data && ScoreField in data && AcceptedField in data && RiddleIdField in data
  }

  /** The check finds nothing missing exactly when the data is complete. */
  lemma CompleteIffNothingMissing(data: map<string, Json>)
    ensures FirstMissing(data, RequiredFields).None? <==> Complete(data)
  {
    assert RequiredFields[0] == SessionIdField && RequiredFields[1] == ScoreField;
    assert RequiredFields[2] == AcceptedField && RequiredFields[3] == RiddleIdField;
  }

  /** One logged result: the caller's values, copied as they came. */
  datatype Record = Record(
    timestamp: string,
    sessionId: Json,
    score: Json,
    accepted: Json,
    riddleId: Json,
    evaluatorId: Json,
    feedback: Json)

  const NodeId: string := "test-mock-node"
  const MissingFieldPrefix: string := "Missing required field: "
  const DefaultEvaluator: string := "unknown"
  const DefaultFeedback: string := "No feedback provided"

  /** The reply to a posted result. `Crashed` is the 500 of the exception
      handler, taken when the body is not a JSON object. */
  datatype Reply =
    | Rejected(status: int, error: string)
    | Received(nodeId: string, timestamp: string)
    | Crashed(status: int)

  datatype Outcome = Outcome(reply: Reply, log: seq<Record>)

  /** `dict.get(key, default)`. */
  function GetOr(data: map<string, Json>, key: string, default: Json): (r: Json)
    ensures key in data ==> r == data[key]
    ensures key !in data ==> r == default
  {
    if key in data then data[key] else default
  }

  /** `receive_handshake_result`: a missing required field is named in a
      400 and nothing is logged; otherwise exactly one record is appended
      and the reply carries its timestamp. `body` is `None` when the request
      holds no JSON object. */
  function ReceiveHandshakeResult(log: seq<Record>, body: Option<map<string, Json>>, now: string): (r: Outcome)
    ensures body.None? ==> r == Outcome(Crashed(500), log)
    ensures body.Some? && FirstMissing(body.value, RequiredFields).Some? ==>
      r == Outcome(Rejected(400, MissingFieldPrefix + FirstMissing(body.value, RequiredFields).value), log)
    ensures body.Some? && Complete(body.value) ==>
      var data := body.value;
      && |r.log| == |log| + 1 && r.log[..|log|] == log
      && r.log[|log|] == Record(now, data[SessionIdField], data[ScoreField], data[AcceptedField], data[RiddleIdField],
                                GetOr(data, EvaluatorIdField, Str(DefaultEvaluator)),
                                GetOr(data, FeedbackField, Str(DefaultFeedback)))
      && r.reply == Received(NodeId, r.log[|log|].timestamp)
  {
    match body
    case None => Outcome(Crashed(500), log)
    case Some(data) =>
      CompleteIffNothingMissing(data);
      match FirstMissing(data, RequiredFields)
      case Some(field) => Outcome(Rejected(400, MissingFieldPrefix + field), log)
      case None =>
        CompleteIffNothingMissing(data);
        var record := Record(now, data[SessionIdField], data[ScoreField], data[AcceptedField], data[RiddleIdField],
                             GetOr(data, EvaluatorIdField, Str(DefaultEvaluator)),
                             GetOr(data, FeedbackField, Str(DefaultFeedback)));
        Outcome(Received(NodeId, record.timestamp), log + [record])
  }

  /** Without a session ID the post is refused naming that field, whatever
      else is missing; with all four present and no evaluator or feedback
      the record holds the two defaults. */
  lemma MissingSessionNamedFirst(log: seq<Record>, data: map<string, Json>, now: string)
    requires SessionIdField !in data
    ensures ReceiveHandshakeResult(log, Some(data), now) == Outcome(Rejected(400, MissingFieldPrefix + SessionIdField), log)
  {
    assert RequiredFields[0] == SessionIdField;
  }

  /** A complete post without the optional fields is logged with the
      defaults "unknown" and "No feedback provided". */
  lemma OptionalFieldsDefault(log: seq<Record>, data: map<string, Json>, now: string)
    requires SessionIdField in data && ScoreField in data && AcceptedField in data && RiddleIdField in data
    requires EvaluatorIdField !in data && FeedbackField !in data
    ensures var out := ReceiveHandshakeResult(log, Some(data), now);
      out.reply.Received? && out.log[|log|].evaluatorId == Str(DefaultEvaluator)
      && out.log[|log|].feedback == Str(DefaultFeedback)
  {
    CompleteIffNothingMissing(data);
  }

  /** `handshake_history`: the log's length and its last ten records. */
  datatype History = History(totalResults: int, results: seq<Record>)

  function HandshakeHistory(log: seq<Record>): (r: History)
    ensures r.totalResults == |log|
    ensures |r.results| == if |log| < 10 then |log| else 10
    ensures r.results == log[|log| - |r.results|..]
  {
    History(|log|, SliceFrom(log, -10))
  }

  /** `node_info`: the fixed description and the number of logged results. */
  datatype Info = Info(nodeId: string, version: string, capabilities: seq<string>, status: string, resultsReceived: int)

  function NodeInfo(log: seq<Record>): (r: Info)
    ensures r.resultsReceived == |log| && r.nodeId == NodeId
  {
    Info(NodeId, "1.0.0", ["handshake_testing", "callback_verification"], "active", |log|)
  }

  /** The results `root` embeds in its page: the last three. */
  function RootResults(log: seq<Record>): (r: seq<Record>)
    ensures |r| == if |log| < 3 then |log| else 3
    ensures r == log[|log| - |r|..]
  {
    SliceFrom(log, -3)
  }

  /** Appending one element shifts a last-k view by one. For k = 1 it does
      not: `s[-0:]` is the whole list. */
  lemma {:induction false} SliceFromSnoc<T>(s: seq<T>, x: T, k: int)
    requires k >= 2
    ensures SliceFrom(s + [x], -k) == SliceFrom(s, -(k - 1)) + [x]
  {
    var t := s + [x];
    if |t| - k >= 0 {
      assert t[|t| - k..] == s[|s| - (k - 1)..] + [x];
    } else {
      assert SliceFrom(s, -(k - 1)) == s;
    }
  }

  /** An accepted post is the newest entry of every view, and the count the
      views report goes up by one. */
  lemma AcceptedPostIsNewest(log: seq<Record>, data: map<string, Json>, now: string)
    requires Complete(data)
    ensures var after := ReceiveHandshakeResult(log, Some(data), now).log;
      var h := HandshakeHistory(after);
      && h.totalResults == |log| + 1
      && NodeInfo(after).resultsReceived == NodeInfo(log).resultsReceived + 1
      && NodeInfo(after).resultsReceived == h.totalResults
      && h.results[|h.results| - 1] == after[|log|]
      && RootResults(after)[|RootResults(after)| - 1] == after[|log|]
      && h.results[..|h.results| - 1] == SliceFrom(log, -9)
  {
    var after := ReceiveHandshakeResult(log, Some(data), now).log;
    assert after == log + [after[|log|]];
    SliceFromSnoc(log, after[|log|], 10);
    SliceFromSnoc(log, after[|log|], 3);
  }
}
