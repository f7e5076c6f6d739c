/** The node key store of `botnet.go.old/src/internal/crypto/nodekeys.go`:
    one key file, `node_keys/node.key`, holding the node's key pair. The
    file is `None` while it does not exist; the freshly generated pair and
    the clock are parameters. */
module NodeKeys {
  import opened Wrappers
  import GoTime
  import Keys

  /** The JSON record of the key file; both keys are base64 text. */
  datatype StoredNodeKey = StoredNodeKey(nodeId: string, publicKey: string, privateKey: string, createdAt: int)

  /** The key file's contents: a record, or bytes that do not unmarshal. */
  datatype NodeKeyFile = Parsed(key: StoredNodeKey) | Corrupt

  /** A store: the node it belongs to and its key file. */
  datatype Store = Store(nodeId: string, file: Option<NodeKeyFile>)

  datatype NodeKeyError =
    | NoKeyFile
    | ParseError
    | NodeIdMismatch(expected: string, got: string)
    | BadPublicKey(reason: Keys.KeyError)
    | BadPrivateKey(reason: Keys.KeyError)

  /** `loadKeys`: the stored pair, decoded, provided the file exists,
      parses and names this store's node; the public key is checked before
      the private one. */
  function LoadKeys(p: Keys.Primitives, store: Store): (r: Result<Keys.KeyPair, NodeKeyError>)
    ensures store.file.None? ==> r == Err(NoKeyFile)
    ensures store.file == Some(Corrupt) ==> r == Err(ParseError)
    ensures store.file.Some? && store.file.value.Parsed? && store.file.value.key.nodeId != store.nodeId ==>
      r == Err(NodeIdMismatch(store.nodeId, store.file.value.key.nodeId))
    ensures r.Ok? <==> (store.file.Some? && store.file.value.Parsed?
      && store.file.value.key.nodeId == store.nodeId
      && Keys.PublicKeyFromBase64(p, store.file.value.key.publicKey).Ok?
      && Keys.PrivateKeyFromBase64(p, store.file.value.key.privateKey).Ok?)
    ensures r.Ok? ==> r.value == Keys.KeyPair(
      Keys.PublicKeyFromBase64(p, store.file.value.key.publicKey).value,
      Keys.PrivateKeyFromBase64(p, store.file.value.key.privateKey).value)
  {
    match store.file
    case None => Err(NoKeyFile)
    case Some(Corrupt) => Err(ParseError)
    case Some(Parsed(stored)) =>
      if stored.nodeId != store.nodeId then Err(NodeIdMismatch(store.nodeId, stored.nodeId))
      else match Keys.PublicKeyFromBase64(p, stored.publicKey)
        case Err(e) => Err(BadPublicKey(e))
        case Ok(publicKey) => match Keys.PrivateKeyFromBase64(p, stored.privateKey)
          case Err(e) => Err(BadPrivateKey(e))
          case Ok(privateKey) => Ok(Keys.KeyPair(publicKey, privateKey))
  }

  datatype Initialized = Initialized(result: Result<Keys.KeyPair, NodeKeyError>, store: Store)

  /** `InitializeOrLoadKeys`: with no key file, `pair` is written as this
      node's record and returned; with any file, nothing is written and the
      file is loaded. */
  function InitializeOrLoadKeys(p: Keys.Primitives, store: Store, pair: Keys.KeyPair, now: int): (r: Initialized)
    ensures store.file.None? ==>
      && r.result == Ok(pair)
      && r.store == store.(file := Some(Parsed(StoredNodeKey(
           store.nodeId, p.encode(pair.publicKey), p.encode(pair.privateKey), GoTime.Unix(now)))))
    ensures store.file.Some? ==> r == Initialized(LoadKeys(p, store), store)
  {
    match store.file
    case None =>
      var record := StoredNodeKey(store.nodeId, p.encode(pair.publicKey), p.encode(pair.privateKey), GoTime.Unix(now));
      Initialized(Ok(pair), store.(file := Some(Parsed(record))))
    case Some(_) => Initialized(LoadKeys(p, store), store)
  }

  /** `GetPublicKeyBase64`: the loaded public key, encoded again. */
  function GetPublicKeyBase64(p: Keys.Primitives, store: Store): (r: Result<string, NodeKeyError>)
    ensures r.Ok? <==> LoadKeys(p, store).Ok?
    ensures r.Ok? ==> r.value == p.encode(LoadKeys(p, store).value.publicKey)
    ensures r.Err? ==> r.error == LoadKeys(p, store).error
  {
    match LoadKeys(p, store)
    case Err(e) => Err(e)
    case Ok(kp) => Ok(p.encode(kp.publicKey))
  }

  /** `GetPrivateKey`: the loaded private key. */
  function GetPrivateKey(p: Keys.Primitives, store: Store): (r: Result<string, NodeKeyError>)
    ensures r.Ok? <==> LoadKeys(p, store).Ok?
    ensures r.Ok? ==> r.value == LoadKeys(p, store).value.privateKey
    ensures r.Err? ==> r.error == LoadKeys(p, store).error
  {
    match LoadKeys(p, store)
    case Err(e) => Err(e)
    case Ok(kp) => Ok(kp.privateKey)
  }

  /** Before the first initialisation neither getter has a key. */
  lemma GettersNeedInitialisation(p: Keys.Primitives, nodeId: string)
    ensures GetPublicKeyBase64(p, Store(nodeId, None)) == Err(NoKeyFile)
    ensures GetPrivateKey(p, Store(nodeId, None)) == Err(NoKeyFile)
  {
  }

  /** Initialising twice gives the same pair, whatever pair the second call
      would have generated; the record names the node and holds the encoded
      public key, and the getters read the pair back. */
  lemma SecondInitSameKey(p: Keys.Primitives, nodeId: string, first: Keys.KeyPair, second: Keys.KeyPair, t1: int, t2: int)
    requires Keys.Sound(p) && Keys.WellFormed(p, first)
    ensures var i1 := InitializeOrLoadKeys(p, Store(nodeId, None), first, t1);
      var i2 := InitializeOrLoadKeys(p, i1.store, second, t2);
      && i1.result == Ok(first)
      && i2 == Initialized(Ok(first), i1.store)
      && i1.store.file.value.key.nodeId == nodeId
      && i1.store.file.value.key.publicKey == p.encode(first.publicKey)
      && GetPublicKeyBase64(p, i1.store) == Ok(p.encode(first.publicKey))
      && GetPrivateKey(p, i1.store) == Ok(first.privateKey)
  {
    Keys.KeysRoundTrip(p, first);
  }

  /** A key file written for another node is never loaded. */
  lemma OtherNodesKeyRejected(p: Keys.Primitives, nodeId: string, other: string, pair: Keys.KeyPair, t1: int, t2: int)
    requires other != nodeId
    ensures var written := InitializeOrLoadKeys(p, Store(other, None), pair, t1).store;
      InitializeOrLoadKeys(p, Store(nodeId, written.file), pair, t2).result == Err(NodeIdMismatch(nodeId, other))
  {
  }
}
