# GoTrue signing keys and storage helpers — a Dafny model

This project models two pieces of decision logic from the GoTrue authentication
service (Go).

- **The signing-key manager** (`api/keys.go`). It lazily creates one Ed25519 key
  pair for the process and publishes the public half as a JSON Web Key Set
  (JWKS). It also builds a keyfunc, the lookup that token verification uses.
  The process-wide variables are modelled as one immutable record,
  `Api.Manager`, which every operation takes and returns. Key generation, JWK
  construction, the storage write and keyfunc construction are library calls.
  What they return in one initialization attempt is an `Api.Attempt` value
  passed in by the caller. The JWKS endpoint `API.Keys` is modelled as
  `Api.Keys`. It records, in order, the headers it sets and the storage calls it
  makes, and it returns either a 200 response or an internal server error.
- **Connection set-up and column helpers** (`storage/dial.go`). The model covers
  how `Dial` resolves the dialect and chooses the driver, the nesting rule of
  `Connection.Transaction`, and `getExcludedColumns`. The other library calls
  are function parameters: `url.Parse`, `pop.NewConnection`, `Open` and pop's
  own transaction runner. The column set produced by reflection over the model
  struct is modelled as a `set<string>` of column names.

Files:

- `go_errors.dfy` (module `GoErrors`): `Option`, `Result`, Go errors as messages, and `errors.Wrap`.
- `api_keys.dfy` (module `Api`): the key manager, the accessors and the endpoint.
- `storage_dial.dfy` (module `Storage`): `Dial`, `Transaction` and `getExcludedColumns`.

Two behaviours of `initializeKeys` shape the model:

- `initializeKeys` holds only a read lock (`RLock`, api/keys.go:26-27) while
  it writes the package variables. When it fails, it returns after some of
  those variables are already overwritten:
  - a failed key generation sets both keys to nil, because
    `ed25519.GenerateKey` returns `(nil, nil, err)`;
  - a failed storage write leaves the new key pair and a fresh, empty store;
  - a failed keyfunc construction leaves a nil keyfunc beside a populated store.

  Only the flag stays false. `Api.InitializeKeys` states exactly these states,
  `Api.EnsureInitialized` passes them on to every accessor, and
  `Api.FailureOverwritesFields` exhibits one of them.
- The error from JWK construction at api/keys.go:35 is never read: `KeyWrite`
  reassigns `err` at line 43 first (`Api.JwkErrorIgnored`). After such a
  dropped error, the store holds jwkset's zero JWK, not a key built from the
  public key.

## Model

| member | source | states |
|---|---|---|
| Api.InitializeKeys | api/keys.go:25-59 | succeeds exactly when generation, storage write and keyfunc construction all succeed; sets the flag only then; each failing step returns its own error; on failure the keys and storage are overwritten as the code does (nil keys, fresh empty store, nil keyfunc); success installs the generated pair, a one-key store and a keyfunc over it |
| Api.EnsureInitialized | api/keys.go:61-70 | on an initialized manager returns nil and changes nothing; otherwise returns exactly the error and state of InitializeKeys, so it succeeds exactly when the attempt does; afterwards no error holds exactly when the flag is set |
| Api.GetPrivateKey | api/keys.go:72-78 | errs exactly when ensureInitialized errs, with that error; otherwise returns the private key of an initialized manager |
| Api.GetPublicKey | api/keys.go:80-86 | errs exactly when ensureInitialized errs, with that error; otherwise returns the public key of an initialized manager |
| Api.GetKeyStorage | api/keys.go:88-94 | errs exactly when ensureInitialized errs, with that error; otherwise returns the JWK storage of an initialized manager |
| Api.GetKeyfunc | api/keys.go:96-102 | errs exactly when ensureInitialized errs, with that error; otherwise returns the keyfunc of an initialized manager |
| Api.FirstCallInitializes | api/keys.go:19-23 | the process starts uninitialized, so the first accessor call runs key generation (calls initializeKeys) exactly once and succeeds exactly when the attempt does |
| Api.JwkErrorIgnored | api/keys.go:35-46 | the JWK construction error never changes the returned error or the flag |
| Api.SuccessPublishesOneSigningKey | api/keys.go:35-52 | after a successful first initialization (JWK built), the store holds exactly one key: the current public key with alg EdDSA and use sig; the keyfunc is over that store with use whitelist exactly ["sig"] |
| Api.FailureOverwritesFields | api/keys.go:29-46 | some failing initialization leaves the flag false but a different public key and a different store than before |
| Api.AccessorsStable | api/keys.go:72-102 | on an initialized manager, two successive calls of each accessor return the same field value and leave the state unchanged |
| Api.NoRegeneration | api/keys.go:61-70 | once initialized, any sequence of ensureInitialized calls never runs key generation (calls initializeKeys) and leaves the state unchanged |
| Api.InitializedIffSomeSuccess | api/keys.go:25-70 | from an uninitialized manager, a sequence of calls ends initialized exactly when some attempt succeeds; with no success every call runs key generation (calls initializeKeys) again, so failures stay retryable |
| Api.FirstSuccessDecides | api/keys.go:25-70 | the first successful attempt determines the final state, and key generation runs (initializeKeys is called) exactly k+1 times when it is the k-th, whether or not earlier generations produced a pair |
| Api.Keys | api/keys.go:105-126 | sets Cache-Control "public, max-age=3600" and Last-Modified before acquiring storage; "Failed to acquire JWKs storage" exactly when the storage accessor fails, returning before any marshaling; "Failed to marshal JWKs storage" exactly when marshaling the acquired storage fails; otherwise status 200 with the marshaled bytes |
| Api.KeysOnInitializedManager | api/keys.go:113-125 | on an initialized manager the endpoint leaves key state unchanged and serves the current store's marshaled bytes, or the marshal error response |
| Storage.ResolveDialect | storage/dial.go:22-28 | an empty dialect with a non-empty URL becomes the URL scheme; a parse failure is the parse error wrapped with "parsing db connection url"; otherwise the configuration is unchanged; URL and namespace are never changed |
| Storage.DriverFor | storage/dial.go:32-38 | the driver is "pgx" if and only if the dialect is "postgres", and "" otherwise |
| Storage.Dial | storage/dial.go:21-56 | connection details carry the resolved dialect, the driver chosen from it, the original URL and an empty options map; the resolved dialect is written back to the configuration; connect and open failures are wrapped with "opening database connection" and "checking database connection" |
| Storage.Transaction | storage/dial.go:58-65 | begins a new transaction only when none is open; if beginning fails, fn is never called and the begin error is returned; otherwise fn runs on the new connection pop created for the transaction and pop's settled result is returned; inside an open one calls fn with the same connection and returns its result |
| Storage.NestedTransactionReuses | storage/dial.go:58-65 | a Transaction called on the connection handed to an outer callback never begins a second transaction and reuses that connection |
| Storage.RemainingOkIff | storage/dial.go:72-77 | validation succeeds exactly when the include names are distinct columns, and the remaining set is then the columns minus the include names |
| Storage.RemainingErrNamesFirstBadEntry | storage/dial.go:72-75 | a failure reports "Invalid column name f" for the first include entry f that is not a column or repeats an earlier entry |
| Storage.RepeatedNameFails | storage/dial.go:72-76 | an include name given twice makes the call fail |
| Storage.RemainingMembers | storage/dial.go:72-77 | on success a column remains exactly when it is not in the include list |
| Storage.GetExcludedColumns | storage/dial.go:67-84 | fails exactly when validation fails, with its error; on success returns 2·\|remaining\| entries, the first \|remaining\| empty, the rest every remaining column exactly once in some order |
| Storage.ShapeMembers | storage/dial.go:79-82 | in a result of that shape each non-empty string occurs exactly when it is a remaining column, and then exactly once |
| Storage.ExcludedEntries | storage/dial.go:76-83 | on success each non-empty entry is an original column not in the include list, and each such column occurs exactly once |

## Left out

- Concurrency: the `RWMutex` in `api/keys.go` is not modelled. The model is sequential, so it says nothing about races between concurrent first calls.
- Cryptography and randomness: Ed25519 key generation is an oracle result (`Attempt.generated`). Keys are opaque byte sequences.
- jwkset internals: JWK construction is modelled only as "key built from the public key with alg EdDSA and use sig" or the zero JWK. The memory store and `Marshal` are not modelled, so the JSON Web Key Set encoding of RFC 7517 section 5 is out of scope. A failed `KeyWrite` is taken to leave the fresh store empty.
- keyfunc internals: construction is an oracle success or failure. Key lookup and use filtering are not modelled; only the whitelist passed in is recorded.
- Time: the `Last-Modified` value is a parameter. The elapsed-time print is left out.
- HTTP response writing, `sendPrettyJSON` and the 500 status that `internalServerError` maps to: the handler result records only the status-200 body or the error message.
- `namespace.SetNamespace` and the deprecation warning log in `Dial`: global side effects with no bearing on the result.
- `url.Parse`, `pop.NewConnection`, `Open`, pop's transaction runner (the result of beginning a transaction, and commit or rollback) and `columns.ForStructWithAlias`: these are function parameters or inputs.
- Storage.Transaction: pop's commit and rollback are the `settle` parameter, so the model does not say how the callback's error is combined with a commit failure.
- `storage/test/db_setup.go` is a direct pass-through to `Dial`, and `main.go` is command-line wiring; neither is part of this model.
