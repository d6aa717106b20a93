/** The signing-key manager of the `api` package and the JWKS endpoint built on it.

    The process-wide variables of the Go package (the initialized flag, the
    Ed25519 key pair, the JWK storage and the keyfunc) are one immutable
    `Manager` record that every operation takes and returns. The libraries the
    manager calls (Ed25519 key generation, jwkset, keyfunc) are not modelled;
    what each call returns in one initialization attempt is an `Attempt`.
 */
module Api {
  import opened GoErrors

  type Bytes = seq<bv8>

  /** `jwkset.AlgEdDSA` and `jwkset.UseSig`. */
  const AlgEdDSA: string := "EdDSA"
  const UseSig: string := "sig"

  /** The two response headers the endpoint sets. */
  const CacheControl: string := "Cache-Control"
  const CacheControlValue: string := "public, max-age=3600"
  const LastModified: string := "Last-Modified"

  const AcquireFailed: string := "Failed to acquire JWKs storage"
  const MarshalFailed: string := "Failed to marshal JWKs storage"
  const StatusOK: int := 200

  /** A JSON Web Key: the public key material and the two metadata fields the
      manager sets. */
  datatype Jwk = Jwk(material: Bytes, alg: string, use: string)

  /** The zero value `jwkset.JWK{}` that `NewJWKFromKey` returns with an error. */
  const ZeroJwk: Jwk := Jwk([], "", "")

  /** A `jwkset.Storage`: nil, or an in-memory store holding keys in write order. */
  datatype JwkStorage = NilStorage | MemoryStorage(keys: seq<Jwk>)

  /** A `keyfunc.Keyfunc`: nil, or one built over a storage with a use whitelist. */
  datatype Keyfunc = NilKeyfunc | KeyfuncOver(storage: JwkStorage, useWhitelist: seq<string>)

  datatype KeyPair = KeyPair(publicKey: Bytes, privateKey: Bytes)

  /** What the library calls return during one run of `initializeKeys`:
      key generation, JWK construction, the storage write and keyfunc construction. */
  datatype Attempt = Attempt(
    generated: Result<KeyPair>,
    jwkError: Option<Error>,
    writeError: Option<Error>,
    keyfuncError: Option<Error>)

  /** The package-level state guarded in Go by `_keyLock`. */
  datatype Manager = Manager(
    initialized: bool,
    publicKey: Bytes,
    privateKey: Bytes,
    keyStorage: JwkStorage,
    keyfunc: Keyfunc)

  /** The state at process start: every variable at its Go zero value. */
  const Initial: Manager := Manager(false, [], [], NilStorage, NilKeyfunc)

  /** The state after `initializeKeys` and the error it returned (None for nil). */
  datatype Step = Step(state: Manager, err: Option<Error>)

  /** The state after an accessor call and what the accessor returned. */
  datatype Access<+T> = Access(state: Manager, result: Result<T>)

  /** The three steps whose errors are checked all succeed. JWK construction is
      not among them: its error is never looked at. */
  predicate Succeeds(a: Attempt)
  {
    a.generated.Ok? && a.writeError.None? && a.keyfuncError.None?
  }

  /** The key `jwkset.NewJWKFromKey` produces for `pub` with alg EdDSA and use sig. */
  function NewJwkFromKey(pub: Bytes, jwkError: Option<Error>): Jwk
  {
    if jwkError.None? then Jwk(pub, AlgEdDSA, UseSig) else ZeroJwk
  }

  /** The state a successful attempt leaves behind, stated independently of
      `InitializeKeys`: the generated pair, a store holding exactly the one key
      built from the public key, and a keyfunc over that store accepting only
      signature keys. */
  function Installed(a: Attempt): Manager
    requires a.generated.Ok?
  {
    var pair := a.generated.value;
    var store := MemoryStorage([NewJwkFromKey(pair.publicKey, a.jwkError)]);
    Manager(true, pair.publicKey, pair.privateKey, store, KeyfuncOver(store, [UseSig]))
  }

  /** `initializeKeys`: generate the pair, build the JWK, write it to a fresh
      memory store, build the keyfunc, and only then set the flag. Each failing
      step returns at once, leaving whatever was assigned before it. */
  function InitializeKeys(m: Manager, a: Attempt): (r: Step)
    ensures r.err.None? <==> Succeeds(a)
    ensures r.state.initialized <==> m.initialized || Succeeds(a)
    ensures Succeeds(a) ==> r.state == Installed(a)
    ensures a.generated.Err? ==>
              r.err == Some(a.generated.error) && r.state == m.(publicKey := [], privateKey := [])
    ensures a.generated.Ok? && a.writeError.Some? ==>
              && r.err == a.writeError
              && r.state == m.(publicKey := a.generated.value.publicKey,
                               privateKey := a.generated.value.privateKey,
                               keyStorage := MemoryStorage([]))
    ensures a.generated.Ok? && a.writeError.None? && a.keyfuncError.Some? ==>
              && r.err == a.keyfuncError
              && r.state == Installed(a).(initialized := m.initialized, keyfunc := NilKeyfunc)
  {
    match a.generated
    case Err(e) =>
      // ed25519.GenerateKey returns (nil, nil, err): both keys are overwritten
      Step(m.(publicKey := [], privateKey := []), Some(e))
    case Ok(pair) =>
      var m1 := m.(publicKey := pair.publicKey, privateKey := pair.privateKey);
      // the JWK construction error is overwritten by the write result unread
      var jwk := NewJwkFromKey(pair.publicKey, a.jwkError);
      var m2 := m1.(keyStorage := MemoryStorage([]));
      if a.writeError.Some? then
        Step(m2, a.writeError)
      else
        var m3 := m2.(keyStorage := MemoryStorage([jwk]));
        if a.keyfuncError.Some? then
          Step(m3.(keyfunc := NilKeyfunc), a.keyfuncError)
        else
          Step(m3.(keyfunc := KeyfuncOver(m3.keyStorage, [UseSig]), initialized := true), None)
  }

  /** `ensureInitialized`: run `initializeKeys` only while the flag is false. */
  function EnsureInitialized(m: Manager, a: Attempt): (r: Step)
    ensures m.initialized ==> r == Step(m, None)
    ensures !m.initialized ==> r == InitializeKeys(m, a)
    ensures !m.initialized ==> (r.err.None? <==> Succeeds(a))
    ensures r.err.None? <==> r.state.initialized
    ensures !m.initialized && Succeeds(a) ==> r.state == Installed(a)
  {
    if !m.initialized then InitializeKeys(m, a) else Step(m, None)
  }

  /** `GetPrivateKey`: the error of `ensureInitialized`, or the private key. */
  function GetPrivateKey(m: Manager, a: Attempt): (r: Access<Bytes>)
    ensures r.state == EnsureInitialized(m, a).state
    ensures r.result.Err? <==> EnsureInitialized(m, a).err.Some?
    ensures r.result.Err? ==> Some(r.result.error) == EnsureInitialized(m, a).err
    ensures r.result.Ok? ==> r.state.initialized && r.result.value == r.state.privateKey
  {
    var s := EnsureInitialized(m, a);
    if s.err.Some? then Access(s.state, Err(s.err.value)) else Access(s.state, Ok(s.state.privateKey))
  }

  /** `GetPublicKey`: the error of `ensureInitialized`, or the public key. */
  function GetPublicKey(m: Manager, a: Attempt): (r: Access<Bytes>)
    ensures r.state == EnsureInitialized(m, a).state
    ensures r.result.Err? <==> EnsureInitialized(m, a).err.Some?
    ensures r.result.Err? ==> Some(r.result.error) == EnsureInitialized(m, a).err
    ensures r.result.Ok? ==> r.state.initialized && r.result.value == r.state.publicKey
  {
    var s := EnsureInitialized(m, a);
    if s.err.Some? then Access(s.state, Err(s.err.value)) else Access(s.state, Ok(s.state.publicKey))
  }

  /** `GetKeyStorage`: the error of `ensureInitialized`, or the JWK storage. */
  function GetKeyStorage(m: Manager, a: Attempt): (r: Access<JwkStorage>)
    ensures r.state == EnsureInitialized(m, a).state
    ensures r.result.Err? <==> EnsureInitialized(m, a).err.Some?
    ensures r.result.Err? ==> Some(r.result.error) == EnsureInitialized(m, a).err
    ensures r.result.Ok? ==> r.state.initialized && r.result.value == r.state.keyStorage
  {
    var s := EnsureInitialized(m, a);
    if s.err.Some? then Access(s.state, Err(s.err.value)) else Access(s.state, Ok(s.state.keyStorage))
  }

  /** `GetKeyfunc`: the error of `ensureInitialized`, or the keyfunc. */
  function GetKeyfunc(m: Manager, a: Attempt): (r: Access<Keyfunc>)
    ensures r.state == EnsureInitialized(m, a).state
    ensures r.result.Err? <==> EnsureInitialized(m, a).err.Some?
    ensures r.result.Err? ==> Some(r.result.error) == EnsureInitialized(m, a).err
    ensures r.result.Ok? ==> r.state.initialized && r.result.value == r.state.keyfunc
  {
    var s := EnsureInitialized(m, a);
    if s.err.Some? then Access(s.state, Err(s.err.value)) else Access(s.state, Ok(s.state.keyfunc))
  }

  // ---------------------------------------------------------------------------
  // Properties of one initialization attempt

  /** The process starts uninitialized, so the first accessor call runs key
      generation (calls `initializeKeys`), and it succeeds exactly when the attempt's checked steps do. */
  lemma FirstCallInitializes(a: Attempt)
    ensures !Initial.initialized
    ensures InitializeRuns(Initial, [a]) == 1
    ensures GetPublicKey(Initial, a).result.Ok? <==> Succeeds(a)
  {
  }

  /** The JWK construction error never decides the outcome: two attempts that
      differ only in it succeed or fail alike, with the same error. */
  lemma JwkErrorIgnored(m: Manager, a: Attempt, jwkError: Option<Error>)
    ensures InitializeKeys(m, a).err == InitializeKeys(m, a.(jwkError := jwkError)).err
    ensures InitializeKeys(m, a).state.initialized
            == InitializeKeys(m, a.(jwkError := jwkError)).state.initialized
  {
  }

  /** When JWK construction did succeed, a successful initialization publishes
      exactly one key: the current public key, with alg EdDSA and use sig, and
      the keyfunc accepts only the use "sig". */
  lemma SuccessPublishesOneSigningKey(m: Manager, a: Attempt)
    requires !m.initialized && Succeeds(a) && a.jwkError.None?
    ensures var s := EnsureInitialized(m, a).state;
            && s.keyStorage == MemoryStorage([Jwk(s.publicKey, AlgEdDSA, UseSig)])
            && s.keyfunc.KeyfuncOver?
            && s.keyfunc.storage == s.keyStorage
            && s.keyfunc.useWhitelist == [UseSig]
  {
  }

  /** A failed initialization is not side-effect free: there are attempts that
      fail yet leave a different public key and a different store behind. */
  lemma FailureOverwritesFields()
    ensures exists m: Manager, a: Attempt ::
              && !m.initialized
              && EnsureInitialized(m, a).err.Some?
              && !EnsureInitialized(m, a).state.initialized
              && EnsureInitialized(m, a).state.publicKey != m.publicKey
              && EnsureInitialized(m, a).state.keyStorage != m.keyStorage
  {
    var m := Initial;
    var a := Attempt(Ok(KeyPair([1], [2])), None, Some(Error("write")), None);
    assert EnsureInitialized(m, a).state.publicKey == [1];
  }

  /** Two successive accessor calls on an initialized manager return the same
      values and leave the state alone, whatever the library would have done. */
  lemma AccessorsStable(m: Manager, a1: Attempt, a2: Attempt)
    requires m.initialized
    ensures GetPrivateKey(m, a1) == GetPrivateKey(GetPrivateKey(m, a1).state, a2) == Access(m, Ok(m.privateKey))
    ensures GetPublicKey(m, a1) == GetPublicKey(GetPublicKey(m, a1).state, a2) == Access(m, Ok(m.publicKey))
    ensures GetKeyStorage(m, a1) == GetKeyStorage(GetKeyStorage(m, a1).state, a2) == Access(m, Ok(m.keyStorage))
    ensures GetKeyfunc(m, a1) == GetKeyfunc(GetKeyfunc(m, a1).state, a2) == Access(m, Ok(m.keyfunc))
  {
  }

  // ---------------------------------------------------------------------------
  // Sequences of calls

  /** The state after one `ensureInitialized` call per attempt, in order. */
  ghost function RunEnsure(m: Manager, attempts: seq<Attempt>): Manager
    decreases |attempts|
  {
    if attempts == [] then m
    else RunEnsure(EnsureInitialized(m, attempts[0]).state, attempts[1..])
  }

  /** How many of those calls ran key generation, i.e. called `initializeKeys`
      (whether or not `ed25519.GenerateKey` then produced a pair). */
  ghost function InitializeRuns(m: Manager, attempts: seq<Attempt>): nat
    decreases |attempts|
  {
    if attempts == [] then 0
    else (if m.initialized then 0 else 1) + InitializeRuns(EnsureInitialized(m, attempts[0]).state, attempts[1..])
  }

  /** The attempt at index k is the first one whose three checked steps succeed. */
  ghost predicate FirstSuccess(attempts: seq<Attempt>, k: int)
  {
    && 0 <= k < |attempts|
    && Succeeds(attempts[k])
    && forall j :: 0 <= j < k ==> !Succeeds(attempts[j])
  }

  /** Once initialized, no later call regenerates or changes anything. */
  lemma {:induction false} NoRegeneration(m: Manager, attempts: seq<Attempt>)
    requires m.initialized
    ensures RunEnsure(m, attempts) == m
    ensures InitializeRuns(m, attempts) == 0
    decreases |attempts|
  {
    if attempts != [] {
      NoRegeneration(m, attempts[1..]);
    }
  }

  /** Starting uninitialized, the manager ends initialized exactly when some
      attempt succeeds; failures leave it retryable. */
  lemma {:induction false} InitializedIffSomeSuccess(m: Manager, attempts: seq<Attempt>)
    requires !m.initialized
    ensures RunEnsure(m, attempts).initialized <==> exists k :: 0 <= k < |attempts| && Succeeds(attempts[k])
    ensures (forall k :: 0 <= k < |attempts| ==> !Succeeds(attempts[k])) ==>
              InitializeRuns(m, attempts) == |attempts|
    decreases |attempts|
  {
    if attempts != [] {
      var s := EnsureInitialized(m, attempts[0]).state;
      if Succeeds(attempts[0]) {
        NoRegeneration(s, attempts[1..]);
      } else {
        InitializedIffSomeSuccess(s, attempts[1..]);
        if exists k :: 0 <= k < |attempts[1..]| && Succeeds(attempts[1..][k]) {
          var k :| 0 <= k < |attempts[1..]| && Succeeds(attempts[1..][k]);
          assert Succeeds(attempts[k + 1]);
        }
        if exists k :: 0 <= k < |attempts| && Succeeds(attempts[k]) {
          var k :| 0 <= k < |attempts| && Succeeds(attempts[k]);
          assert k != 0;
          assert Succeeds(attempts[1..][k - 1]);
        }
      }
    }
  }

  /** Exactly-once initialization: the first successful attempt decides the
      final state, and `initializeKeys` ran exactly k + 1 times for a first
      success at k. */
  lemma {:induction false} FirstSuccessDecides(m: Manager, attempts: seq<Attempt>, k: int)
    requires !m.initialized
    requires FirstSuccess(attempts, k)
    ensures RunEnsure(m, attempts) == Installed(attempts[k])
    ensures InitializeRuns(m, attempts) == k + 1
    decreases |attempts|
  {
    var s := EnsureInitialized(m, attempts[0]).state;
    if k == 0 {
      NoRegeneration(s, attempts[1..]);
    } else {
      assert !Succeeds(attempts[0]);
      assert attempts[1..][k - 1] == attempts[k];
      forall j | 0 <= j < k - 1
        ensures !Succeeds(attempts[1..][j])
      {
        assert attempts[1..][j] == attempts[j + 1];
      }
      FirstSuccessDecides(s, attempts[1..], k - 1);
    }
  }

  // ---------------------------------------------------------------------------
  // The JWKS endpoint

  /** What the handler did, in order, before producing its result. */
  datatype Event = SetHeader(name: string, value: string) | AcquireStorage | MarshalStorage

  /** The handler's return: a response sent with a status and body, or an
      internal server error carrying its public message. */
  datatype HandlerResult = Sent(status: int, body: Bytes) | InternalServerError(message: string)

  datatype KeysRun = KeysRun(state: Manager, events: seq<Event>, result: HandlerResult)

  /** `API.Keys`: set the caching headers, acquire the storage through the
      manager, marshal it, and send it with status 200. `now` is the formatted
      current time; `marshal` is the storage's `Marshal` method. */
  function Keys(m: Manager, a: Attempt, now: string, marshal: JwkStorage -> Result<Bytes>): (r: KeysRun)
    ensures |r.events| >= 3
    ensures r.events[0] == SetHeader(CacheControl, CacheControlValue)
    ensures r.events[1] == SetHeader(LastModified, now)
    ensures r.events[2] == AcquireStorage
    ensures GetKeyStorage(m, a).result.Err? ==> |r.events| == 3
    ensures r.state == GetKeyStorage(m, a).state
    ensures r.result == InternalServerError(AcquireFailed) <==> GetKeyStorage(m, a).result.Err?
    ensures GetKeyStorage(m, a).result.Ok? ==>
              && r.events == r.events[..3] + [MarshalStorage]
              && (r.result == InternalServerError(MarshalFailed) <==>
                  marshal(GetKeyStorage(m, a).result.value).Err?)
    ensures r.result.Sent? <==>
              GetKeyStorage(m, a).result.Ok? && marshal(GetKeyStorage(m, a).result.value).Ok?
    ensures r.result.Sent? ==>
              r.result == Sent(StatusOK, marshal(GetKeyStorage(m, a).result.value).value)
  {
    var headers := [SetHeader(CacheControl, CacheControlValue), SetHeader(LastModified, now)];
    var acquired := GetKeyStorage(m, a);
    match acquired.result
    case Err(_) =>
      KeysRun(acquired.state, headers + [AcquireStorage], InternalServerError(AcquireFailed))
    case Ok(storage) =>
      var events := headers + [AcquireStorage, MarshalStorage];
      match marshal(storage)
      case Err(_) => KeysRun(acquired.state, events, InternalServerError(MarshalFailed))
      case Ok(body) => KeysRun(acquired.state, events, Sent(StatusOK, body))
  }

  /** On an initialized manager the endpoint never changes key state and never
      fails to acquire the storage: it serves the marshaled current store or
      reports a marshaling failure. */
  lemma KeysOnInitializedManager(m: Manager, a: Attempt, now: string, marshal: JwkStorage -> Result<Bytes>)
    requires m.initialized
    ensures Keys(m, a, now, marshal).state == m
    ensures Keys(m, a, now, marshal).result
            == (if marshal(m.keyStorage).Ok? then Sent(StatusOK, marshal(m.keyStorage).value)
                else InternalServerError(MarshalFailed))
  {
  }
}
