/** DNS-based discovery of `internal/discovery/dns.go`: the TXT record a node
    publishes, the endpoint extraction that reads such records back, and the
    field check on fetched manifests. DNS answers and manifest fetches are
    parameters: `lookups` maps a TXT name to its records (absent: the lookup
    failed) and `fetched` maps an endpoint to the manifest decoded from it
    (absent: the request, status or JSON decoding failed). */
module Discovery {
  import opened Wrappers
  import opened Types
  import GoStrings

  const EndpointKey: string := "endpoint="

  /** The TXT name under which a node's record lives. */
  function TxtName(domain: string): (name: string)
    ensures GoStrings.HasPrefix(name, "_botnet.") && name[|"_botnet."|..] == domain
  {
    "_botnet." + domain
  }

  /** The version marker a BotNet TXT record starts with. */
  const Marker: string := "v=1"
  const RecordTail: string := "type=node capabilities=messaging,agent_hosting"

  /** The TXT record `PublishNodeRecord` announces for a node ID:
      "v=1 endpoint=https://<nodeId> type=node capabilities=messaging,agent_hosting". */
  function TxtRecord(nodeId: string): string {
    Marker + " " + (EndpointKey + ("https://" + nodeId)) + " " + RecordTail
  }

  /** A record that looks like a BotNet record. */
  predicate Qualifies(record: string) {
    GoStrings.HasPrefix(record, Marker) && GoStrings.Contains(record, EndpointKey)
  }

  /** The value of the first field that starts with "endpoint=". */
  function FirstEndpoint(parts: seq<string>): (r: Option<string>)
    ensures r.None? <==> forall k :: 0 <= k < |parts| ==> !GoStrings.HasPrefix(parts[k], EndpointKey)
    ensures r.Some? ==> exists k :: (0 <= k < |parts| && GoStrings.HasPrefix(parts[k], EndpointKey)
      && r.value == parts[k][|EndpointKey|..]
      && forall j :: 0 <= j < k ==> !GoStrings.HasPrefix(parts[j], EndpointKey))
  {
    if |parts| == 0 then None
    else if GoStrings.HasPrefix(parts[0], EndpointKey) then Some(GoStrings.TrimPrefix(parts[0], EndpointKey))
    else
      var r := FirstEndpoint(parts[1..]);
      assert forall k :: 1 <= k < |parts| ==> parts[k] == parts[1..][k - 1];
      assert r.Some? ==> exists k :: (0 <= k < |parts| && GoStrings.HasPrefix(parts[k], EndpointKey)
        && r.value == parts[k][|EndpointKey|..]
        && forall j :: 0 <= j < k ==> !GoStrings.HasPrefix(parts[j], EndpointKey)) by {
        if r.Some? {
          var k :| 0 <= k < |parts[1..]| && GoStrings.HasPrefix(parts[1..][k], EndpointKey)
            && r.value == parts[1..][k][|EndpointKey|..]
            && forall j :: 0 <= j < k ==> !GoStrings.HasPrefix(parts[1..][j], EndpointKey);
          assert forall j :: 0 <= j < k + 1 ==> !GoStrings.HasPrefix(parts[j], EndpointKey) by {
            forall j | 0 <= j < k + 1 ensures !GoStrings.HasPrefix(parts[j], EndpointKey) {
              if j > 0 { assert parts[j] == parts[1..][j - 1]; }
            }
          }
        }
      }
      r
  }

  /** The endpoint a record yields: only a qualifying record with an
      "endpoint=" field yields one. */
  function RecordEndpoint(record: string): Option<string> {
    if Qualifies(record) then FirstEndpoint(GoStrings.Fields(record)) else None
  }

  /** What each record yields, in order. */
  function Endpoints(records: seq<string>): (es: seq<Option<string>>)
    ensures |es| == |records| && forall i :: 0 <= i < |records| ==> es[i] == RecordEndpoint(records[i])
  {
    seq(|records|, i requires 0 <= i < |records| => RecordEndpoint(records[i]))
  }

  /** The endpoint of the first record that yields one; a qualifying record
      without an "endpoint=" field is passed over. */
  function FindEndpoint(records: seq<string>): (r: Option<string>)
    ensures r.None? <==> forall i :: 0 <= i < |records| ==> RecordEndpoint(records[i]).None?
    ensures r.Some? ==> exists i :: (0 <= i < |records| && RecordEndpoint(records[i]) == r
      && forall j :: 0 <= j < i ==> RecordEndpoint(records[j]).None?)
  {
    FirstSome(Endpoints(records))
  }

  /** `parseEndpoint`: the empty string when no record yields an endpoint. */
  function ParseEndpoint(records: seq<string>): (endpoint: string)
    ensures (forall i :: 0 <= i < |records| ==> !Qualifies(records[i])) ==> endpoint == ""
  {
    FindEndpoint(records).GetOr("")
  }

  /** The first two fields of a published record. */
  lemma TxtRecordFields(nodeId: string)
    requires GoStrings.NoSpace(nodeId)
    ensures var f := GoStrings.Fields(TxtRecord(nodeId));
      |f| >= 2 && f[0] == Marker && f[1] == EndpointKey + ("https://" + nodeId)
  {
    var endpointField := EndpointKey + ("https://" + nodeId);
    assert TxtRecord(nodeId) == Marker + " " + (endpointField + " " + RecordTail);
    assert GoStrings.NoSpace("https://") && GoStrings.NoSpace(EndpointKey);
    GoStrings.NoSpaceConcat("https://", nodeId);
    GoStrings.NoSpaceConcat(EndpointKey, "https://" + nodeId);
    assert GoStrings.NoSpace(Marker);
    GoStrings.FieldsStartWith(Marker, endpointField, RecordTail);
  }

  /** A published record qualifies as a BotNet record. */
  lemma TxtRecordQualifies(nodeId: string)
    ensures Qualifies(TxtRecord(nodeId))
  {
    var rest := "https://" + nodeId + " " + RecordTail;
    assert TxtRecord(nodeId) == (Marker + " ") + EndpointKey + rest;
    GoStrings.ContainsInfix(Marker + " ", EndpointKey, rest);
    assert TxtRecord(nodeId) == Marker + (" " + EndpointKey + rest);
    PrefixOfConcat(Marker, " " + EndpointKey + rest);
  }

  lemma PrefixOfConcat(a: string, b: string)
    ensures GoStrings.HasPrefix(a + b, a)
  {
    assert (a + b)[..|a|] == a;
  }

  lemma FirstEndpointOfSecond(f: seq<string>, value: string)
    requires |f| >= 2 && f[0] == Marker && f[1] == EndpointKey + value
    ensures FirstEndpoint(f) == Some(value)
  {
    PrefixOfConcat(EndpointKey, value);
    assert !GoStrings.HasPrefix(f[0], EndpointKey);
    assert f[1..][0] == f[1];
  }

  /** A published record yields the node's https endpoint. */
  lemma TxtRecordEndpoint(nodeId: string)
    requires GoStrings.NoSpace(nodeId)
    ensures RecordEndpoint(TxtRecord(nodeId)) == Some("https://" + nodeId)
  {
    var record := TxtRecord(nodeId);
    TxtRecordFields(nodeId);
    TxtRecordQualifies(nodeId);
    var f := GoStrings.Fields(record);
    FirstEndpointOfSecond(f, "https://" + nodeId);
    assert RecordEndpoint(record) == FirstEndpoint(f);
  }

  /** Reading back a published record gives the node's https endpoint, for
      any node ID without white space, whatever records follow it. */
  lemma PublishedRecordRoundTrip(nodeId: string, later: seq<string>)
    requires GoStrings.NoSpace(nodeId)
    ensures ParseEndpoint([TxtRecord(nodeId)] + later) == "https://" + nodeId
  {
    TxtRecordEndpoint(nodeId);
    assert ([TxtRecord(nodeId)] + later)[0] == TxtRecord(nodeId);
  }

  /** The decoy record "v=1 x<endpoint=...>": it contains the key but no
      field starts with it. */
  function Decoy(junk: string): string {
    (Marker + " x") + EndpointKey + junk
  }

  lemma DecoyYieldsNothing(junk: string)
    requires GoStrings.NoSpace(junk)
    ensures Qualifies(Decoy(junk)) && RecordEndpoint(Decoy(junk)) == None
  {
    var field := "x" + EndpointKey + junk;
    assert Decoy(junk) == Marker + " " + field;
    assert GoStrings.NoSpace("x" + EndpointKey);
    GoStrings.NoSpaceConcat("x" + EndpointKey, junk);
    assert GoStrings.NoSpace(Marker);
    DecoyQualifies(junk);
    TwoFields(Marker, field);
    NoEndpointField(Marker, field);
  }

  lemma DecoyQualifies(junk: string)
    ensures Qualifies(Decoy(junk))
  {
    GoStrings.ContainsInfix(Marker + " x", EndpointKey, junk);
    assert Decoy(junk) == Marker + (" x" + EndpointKey + junk);
    PrefixOfConcat(Marker, " x" + EndpointKey + junk);
  }

  lemma TwoFields(a: string, b: string)
    requires |a| > 0 && GoStrings.NoSpace(a) && |b| > 0 && GoStrings.NoSpace(b)
    ensures GoStrings.Fields(a + " " + b) == [a, b]
  {
    GoStrings.FieldsCons(a, b);
    GoStrings.FieldsSingle(b);
  }

  lemma NoEndpointField(a: string, b: string)
    requires a == Marker && |b| > 0 && b[0] == 'x'
    ensures FirstEndpoint([a, b]) == None
  {
    assert !GoStrings.HasPrefix(a, EndpointKey);
    assert !GoStrings.HasPrefix(b, EndpointKey);
  }

  /** A record that qualifies but has no field starting with "endpoint="
      does not stop the search: a published record after it still answers. */
  lemma DecoyRecordIsSkipped(junk: string, nodeId: string)
    requires GoStrings.NoSpace(junk) && GoStrings.NoSpace(nodeId)
    ensures ParseEndpoint([Decoy(junk), TxtRecord(nodeId)]) == "https://" + nodeId
  {
    DecoyYieldsNothing(junk);
    PublishedRecordRoundTrip(nodeId, []);
    assert [Decoy(junk), TxtRecord(nodeId)][1..] == [TxtRecord(nodeId)] + [];
  }

  datatype ManifestError = MissingRequiredFields

  /** The field check of `fetchManifest`. */
  function CheckManifest(m: NodeManifest): (r: Result<NodeManifest, ManifestError>)
    ensures r.Ok? <==> m.nodeId != "" && m.version != ""
    ensures r.Ok? ==> r.value == m
  {
    if m.nodeId == "" || m.version == "" then Err(MissingRequiredFields) else Ok(m)
  }

  /** Any manifest with both required fields filled in passes unchanged,
      clearing either field fails it, and a checked manifest passes again. */
  lemma CheckManifestAccepts(m: NodeManifest, id: string, version: string)
    requires id != "" && version != ""
    ensures CheckManifest(m.(nodeId := id, version := version)) == Ok(m.(nodeId := id, version := version))
    ensures CheckManifest(m.(nodeId := "")).Err? && CheckManifest(m.(version := "")).Err?
    ensures CheckManifest(m).Ok? ==> CheckManifest(CheckManifest(m).value) == CheckManifest(m)
  {
  }

  /** One seed of `DiscoverNodes`: look up its TXT record, extract the
      endpoint, fetch and check the manifest; any failure gives nothing. */
  function SeedManifest(seed: string, lookups: map<string, seq<string>>, fetched: map<string, NodeManifest>)
    : (r: Option<NodeManifest>)
    ensures r.Some? ==> r.value.nodeId != "" && r.value.version != "" && r.value in fetched.Values
    ensures TxtName(seed) !in lookups ==> r.None?
    ensures r.Some? <==>
      && TxtName(seed) in lookups
      && var endpoint := ParseEndpoint(lookups[TxtName(seed)]);
         endpoint != "" && endpoint in fetched && fetched[endpoint].nodeId != "" && fetched[endpoint].version != ""
    ensures r.Some? ==> r.value == fetched[ParseEndpoint(lookups[TxtName(seed)])]
  {
    var name := TxtName(seed);
    if name !in lookups then None
    else
      var endpoint := ParseEndpoint(lookups[name]);
      if endpoint == "" || endpoint !in fetched then None
      else match CheckManifest(fetched[endpoint])
        case Ok(m) => Some(m)
        case Err(_) => None
  }

  /** What each seed yields, in order. */
  function SeedManifests(seeds: seq<string>, lookups: map<string, seq<string>>, fetched: map<string, NodeManifest>)
    : (ms: seq<Option<NodeManifest>>)
    ensures |ms| == |seeds| && forall i :: 0 <= i < |seeds| ==> ms[i] == SeedManifest(seeds[i], lookups, fetched)
  {
    seq(|seeds|, i requires 0 <= i < |seeds| => SeedManifest(seeds[i], lookups, fetched))
  }

  /** `DiscoverNodes`: every seed domain in order; a failed seed is
      skipped, and every seed that succeeds contributes its manifest. */
  function DiscoverNodes(seeds: seq<string>, lookups: map<string, seq<string>>, fetched: map<string, NodeManifest>)
    : (found: seq<NodeManifest>)
    ensures |found| <= |seeds|
    ensures forall k :: 0 <= k < |found| ==> found[k].nodeId != "" && found[k].version != ""
    ensures forall k :: 0 <= k < |found| ==> found[k] in fetched.Values
    ensures forall i :: 0 <= i < |seeds| && SeedManifest(seeds[i], lookups, fetched).Some? ==>
      SeedManifest(seeds[i], lookups, fetched).value in found
  {
    var ms := SeedManifests(seeds, lookups, fetched);
    var found := Somes(ms);
    assert forall k :: 0 <= k < |found| ==> exists i :: 0 <= i < |seeds| && SeedManifest(seeds[i], lookups, fetched) == Some(found[k]);
    found
  }

  /** The seeds are visited in order: discovering from two lists of seeds
      one after the other finds the first list's manifests followed by the
      second's. */
  lemma DiscoverNodesAppend(s1: seq<string>, s2: seq<string>,
                            lookups: map<string, seq<string>>, fetched: map<string, NodeManifest>)
    ensures DiscoverNodes(s1 + s2, lookups, fetched) == DiscoverNodes(s1, lookups, fetched) + DiscoverNodes(s2, lookups, fetched)
  {
    var m1 := SeedManifests(s1, lookups, fetched);
    var m2 := SeedManifests(s2, lookups, fetched);
    var m := SeedManifests(s1 + s2, lookups, fetched);
    assert m == m1 + m2 by {
      forall i | 0 <= i < |m| ensures m[i] == (m1 + m2)[i] {
        if i < |s1| { assert (s1 + s2)[i] == s1[i]; } else { assert (s1 + s2)[i] == s2[i - |s1|]; }
      }
    }
    SomesAppend(m1, m2);
  }

  /** A single seed yields exactly its own manifest, if it has one. */
  lemma DiscoverSingleSeed(seed: string, lookups: map<string, seq<string>>, fetched: map<string, NodeManifest>)
    ensures var r := SeedManifest(seed, lookups, fetched);
      DiscoverNodes([seed], lookups, fetched) == if r.Some? then [r.value] else []
  {
    var ms := SeedManifests([seed], lookups, fetched);
    assert ms == [SeedManifest(seed, lookups, fetched)];
    assert ms[1..] == [];
  }
}
