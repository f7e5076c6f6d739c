/** The agent keystore of `botnet.go.old/src/internal/crypto/keystore.go`.
    The keys directory is a map from file name to what reading and
    unmarshalling that file gives; an agent's key lives in
    `<agentID>.key`. The freshly generated key pair and the clock are
    parameters. */
module KeyStore {
  import opened Wrappers
  import GoStrings
  import GoTime
  import Keys
  import Iteration

  /** The JSON record of a key file; both keys are base64 text. */
  datatype StoredKey = StoredKey(agentId: string, publicKey: string, privateKey: string, createdAt: int)

  /** A file of the keys directory: a record, or bytes that do not
      unmarshal into one. */
  datatype KeyFile = Stored(key: StoredKey) | Unreadable

  type Dir = map<string, KeyFile>

  const KeyExt: string := ".key"

  /** `getKeyPath`, relative to the keys directory. */
  function KeyPath(agentId: string): (r: string)
    ensures GoStrings.HasSuffix(r, KeyExt) && r[..|r| - |KeyExt|] == agentId
  {
    agentId + KeyExt
  }

  /** `loadKey`: the agent's record, if its file exists and unmarshals. */
  function LoadKey(dir: Dir, agentId: string): (r: Option<StoredKey>)
    ensures r.Some? <==> KeyPath(agentId) in dir && dir[KeyPath(agentId)].Stored?
    ensures r.Some? ==> r.value == dir[KeyPath(agentId)].key
  {
    if KeyPath(agentId) in dir && dir[KeyPath(agentId)].Stored? then Some(dir[KeyPath(agentId)].key) else None
  }

  datatype KeyStoreError = AlreadyHasKey | NotFound | BadPrivateKey(reason: Keys.KeyError)

  datatype Generated = Generated(result: Result<Keys.KeyPair, KeyStoreError>, dir: Dir)

  /** `GenerateAndStoreKeyPair`: refused, with nothing written, when the
      agent's key already loads; otherwise the new `pair` is written to the
      agent's file, replacing an unreadable one, and no other file
      changes. */
  function GenerateAndStoreKeyPair(p: Keys.Primitives, dir: Dir, agentId: string, pair: Keys.KeyPair, now: int)
    : (r: Generated)
    ensures LoadKey(dir, agentId).Some? ==> r == Generated(Err(AlreadyHasKey), dir)
    ensures LoadKey(dir, agentId).None? ==>
      && r.result == Ok(pair)
      && r.dir.Keys == dir.Keys + {KeyPath(agentId)}
      && r.dir[KeyPath(agentId)] == Stored(StoredKey(agentId, p.encode(pair.publicKey), p.encode(pair.privateKey), GoTime.Unix(now)))
    ensures forall f :: f in dir && f != KeyPath(agentId) ==> f in r.dir && r.dir[f] == dir[f]
  {
    if LoadKey(dir, agentId).Some? then Generated(Err(AlreadyHasKey), dir)
    else
      var record := StoredKey(agentId, p.encode(pair.publicKey), p.encode(pair.privateKey), GoTime.Unix(now));
      Generated(Ok(pair), dir[KeyPath(agentId) := Stored(record)])
  }

  /** `GetPrivateKey`: the decoded private key of the agent's record. */
  function GetPrivateKey(p: Keys.Primitives, dir: Dir, agentId: string): (r: Result<string, KeyStoreError>)
    ensures LoadKey(dir, agentId).None? ==> r == Err(NotFound)
    ensures LoadKey(dir, agentId).Some? ==>
      var decoded := Keys.PrivateKeyFromBase64(p, LoadKey(dir, agentId).value.privateKey);
      && (decoded.Ok? ==> r == Ok(decoded.value))
      && (decoded.Err? ==> r == Err(BadPrivateKey(decoded.error)))
  {
    match LoadKey(dir, agentId)
    case None => Err(NotFound)
    case Some(stored) => match Keys.PrivateKeyFromBase64(p, stored.privateKey)
      case Err(e) => Err(BadPrivateKey(e))
      case Ok(key) => Ok(key)
  }

  /** `GetPublicKey`: the base64 public key of the agent's record, as
      stored. */
  function GetPublicKey(dir: Dir, agentId: string): (r: Result<string, KeyStoreError>)
    ensures r.Ok? <==> LoadKey(dir, agentId).Some?
    ensures r.Ok? ==> r.value == dir[KeyPath(agentId)].key.publicKey
    ensures r.Err? ==> r.error == NotFound
  {
    match LoadKey(dir, agentId)
    case None => Err(NotFound)
    case Some(stored) => Ok(stored.publicKey)
  }

  /** `HasKey`: the agent's file exists and unmarshals. */
  predicate HasKey(dir: Dir, agentId: string) {
    LoadKey(dir, agentId).Some?
  }

  /** `DeleteKey`: the agent's file goes, if there was one; deleting a
      missing key also succeeds. */
  function DeleteKey(dir: Dir, agentId: string): (r: Dir)
    ensures r.Keys == dir.Keys - {KeyPath(agentId)}
    ensures forall f :: f in r ==> r[f] == dir[f]
  {
    dir - {KeyPath(agentId)}
  }

  /** The agent IDs of the `.key` names among `names`, in their order: a
      name ending in ".key" yields the name without those four bytes. */
  function KeyNames(names: seq<string>): (r: seq<string>)
    ensures |r| <= |names|
    ensures forall a :: a in r <==> KeyPath(a) in names
  {
    if |names| == 0 then []
    else
      var rest := KeyNames(names[1..]);
      var n := names[0];
      assert names == [n] + names[1..];
      KeyFileName(n);
      if GoStrings.HasSuffix(n, KeyExt) then [n[..|n| - |KeyExt|]] + rest else rest
  }

  /** A name is the key file of at most one agent: the name without its
      ".key" suffix, when it has one. */
  lemma KeyFileName(n: string)
    ensures GoStrings.HasSuffix(n, KeyExt) ==> KeyPath(n[..|n| - |KeyExt|]) == n
    ensures forall b :: KeyPath(b) == n ==> GoStrings.HasSuffix(n, KeyExt) && b == n[..|n| - |KeyExt|]
  {
    if GoStrings.HasSuffix(n, KeyExt) {
      assert n == n[..|n| - |KeyExt|] + n[|n| - |KeyExt|..];
    }
  }

  /** `ListAgents`: `order` is the directory listing, each file once. An
      agent is listed exactly when its key file is present, readable or
      not. */
  function ListAgents(dir: Dir, order: seq<string>): (r: seq<string>)
    requires Iteration.Enumerates(dir, order)
    ensures forall a :: a in r <==> KeyPath(a) in dir
  {
    KeyNames(order)
  }

  /** After a successful generate the agent has a key, and both halves read
      back as generated: the public key in base64 as stored, the private
      key decoded; the agent is listed. */
  lemma GenerateThenRead(p: Keys.Primitives, dir: Dir, agentId: string, pair: Keys.KeyPair, now: int, order: seq<string>)
    requires Keys.Sound(p) && Keys.WellFormed(p, pair)
    requires !HasKey(dir, agentId)
    requires var after := GenerateAndStoreKeyPair(p, dir, agentId, pair, now).dir;
      Iteration.Enumerates(after, order)
    ensures var g := GenerateAndStoreKeyPair(p, dir, agentId, pair, now);
      && g.result == Ok(pair)
      && HasKey(g.dir, agentId)
      && GetPublicKey(g.dir, agentId) == Ok(p.encode(pair.publicKey))
      && GetPrivateKey(p, g.dir, agentId) == Ok(pair.privateKey)
      && agentId in ListAgents(g.dir, order)
  {
    Keys.KeysRoundTrip(p, pair);
  }

  /** A second generate for the same agent fails and changes nothing, so
      the first pair stays readable. */
  lemma SecondGenerateFails(p: Keys.Primitives, dir: Dir, agentId: string, first: Keys.KeyPair, second: Keys.KeyPair,
                            t1: int, t2: int)
    requires !HasKey(dir, agentId)
    ensures var g1 := GenerateAndStoreKeyPair(p, dir, agentId, first, t1);
      GenerateAndStoreKeyPair(p, g1.dir, agentId, second, t2) == Generated(Err(AlreadyHasKey), g1.dir)
  {
  }

  /** After a delete the agent has no key and no longer reads back. */
  lemma DeleteThenMissing(p: Keys.Primitives, dir: Dir, agentId: string)
    ensures !HasKey(DeleteKey(dir, agentId), agentId)
    ensures GetPublicKey(DeleteKey(dir, agentId), agentId) == Err(NotFound)
    ensures GetPrivateKey(p, DeleteKey(dir, agentId), agentId) == Err(NotFound)
  {
  }
}
