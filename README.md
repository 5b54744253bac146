# Session bookkeeping and key validation of the slashtags auth package

This project models the part of the `@synonymdev/slashtags` authentication package
that keeps challenge sessions and checks key sizes:

- `validateKeyForCurve` checks an optional public key against a curve's `PKLEN` and an
  optional secret key against its `SKLEN`. The public key is checked first. A mismatch
  throws an error whose message names the curve's `ALG`. Otherwise the answer is `true`.
  A present key of length zero is still checked, because an empty `Uint8Array` is truthy.
- `generateChallenge` returns as many bytes as it is asked for, for a length
  `randomBytes` accepts, or `DEFAULT_CHALLENGE_LENGTH` bytes when no length is given.
- `sessionID` turns a challenge into its lower-case hexadecimal text. This text is the
  key of the session map. Each byte gives two characters, in order. The encoding is
  injective: it is proved by decoding the text back (`Hex.Decode`, a reference inverse
  that the package itself does not contain).
- `addSession` stores `{challenge, metadata}` in a `Map` under `sessionID(challenge)`.
  Absent metadata is stored as empty bytes. It also arms a timer whose callback deletes the
  entry under that key if one is present. The store is the class
  `Sessions.SessionStore`, holding a `map<string, Session>`. The callback is the explicit
  event `Expire(id)`. Both operations keep the invariant that every key is the session
  key of the challenge stored under it.

Files: `base.dfy` (Option, Result, bytes), `crypto.dfy` (crypto.js), `hex.dfy` (the
hexadecimal codec that `sessionID` relies on), `sessions.dfy` (sessions.js).

## Model

| member | source | states |
|---|---|---|
| Crypto.ValidateKeyForCurve | packages/auth/src/crypto.js:34-44 | succeeds exactly when each key is absent or has the curve's length; success carries `true`; a failure carries the public-key message when the public key is wrong, else the secret-key message |
| Crypto.PublicKeyCheckedFirst | packages/auth/src/crypto.js:35-41 | a present public key of the wrong length yields "Invalid publicKey size for curve: " + ALG, whatever the secret key is |
| Crypto.SecretKeyMismatch | packages/auth/src/crypto.js:39-41 | with the public key absent or fitting, a secret key of the wrong length yields "Invalid secretKey size for curve: " + ALG |
| Crypto.NoKeysIsValid | packages/auth/src/crypto.js:35-43 | with both keys absent the result is `true` |
| Crypto.EmptyPublicKeyIsChecked | packages/auth/src/crypto.js:35-37 | a present empty public key is compared, so a curve with PKLEN > 0 rejects it |
| Crypto.MatchingKeysAreValid | packages/auth/src/crypto.js:43 | a public key of length PKLEN with a fitting or absent secret key gives `true` |
| Crypto.ErrorMessagesIdentify | packages/auth/src/crypto.js:36-40 | the two messages never coincide, and each message determines the curve name |
| Crypto.ForeignRemoteKeyMessage | packages/auth/test/signChallenge.spec.js:10-22 | for the curve "secp256k1", a remote public key of another size gives the exact message the test expects |
| Crypto.Concat | packages/auth/src/crypto.js:12 | concatenating a single part gives that part |
| Crypto.GenerateChallenge | packages/auth/src/crypto.js:11-12 | the challenge has the requested length, DEFAULT_CHALLENGE_LENGTH when none is given, and holds the random bytes in order |
| Hex.Encode | packages/auth/src/sessions.js:8 | the text has two characters per byte; characters `2i` and `2i+1` are the high and low hex digit of byte `i` |
| Hex.DecodeEncode | packages/auth/src/sessions.js:4-8 | decoding the text of any byte string gives back that byte string |
| Hex.EncodeDecode | packages/auth/src/sessions.js:4-8 | any text that decodes is the encoding of what it decodes to, so the key form is canonical |
| Hex.EncodeInjective | packages/auth/src/sessions.js:4-8 | equal encodings come from equal byte strings |
| Sessions.SessionID | packages/auth/src/sessions.js:8 | the key has length twice the challenge's and decodes back to the challenge |
| Sessions.SessionIDInjective | packages/auth/src/sessions.js:4-8 | two challenges have the same key if and only if they are equal |
| Sessions.SessionIDAt | packages/auth/src/sessions.js:8 | character pair `i` of the key is the hex text of byte `i` |
| Sessions.Added | packages/auth/src/sessions.js:19-30 | after the insert the challenge's key holds that challenge and the supplied metadata, or empty metadata when none is supplied; it replaces any earlier entry; the key set gains only that key; every other entry is unchanged |
| Sessions.Expired | packages/auth/src/sessions.js:21-24 | the key set loses exactly `id` (nothing happens when it is absent) and every remaining entry is unchanged |
| Sessions.AddPreservesKeysMatch | packages/auth/src/sessions.js:19-30 | inserting keeps every key equal to the session key of its stored challenge |
| Sessions.ExpirePreservesKeysMatch | packages/auth/src/sessions.js:21-24 | the expiry callback keeps the same invariant |
| Sessions.ExpireIdempotent | packages/auth/src/sessions.js:22-23 | running the callback for a key twice has the effect of running it once |
| Sessions.ExpireCommutes | packages/auth/src/sessions.js:21-24 | callbacks for two keys give the same map in either order |
| Sessions.AddThenExpire | packages/auth/src/sessions.js:19-30 | the callback of a session just added removes that key and restores every other entry |
| Sessions.LookupFindsChallenge | packages/auth/src/sessions.js:4-8 | in a map that keeps the invariant, the entry under a challenge's key holds that very challenge |
| Sessions.SessionStore.AddSession | packages/auth/src/sessions.js:18-31 | the new map is `Added` of the old one, and the invariant is kept |
| Sessions.SessionStore.Expire | packages/auth/src/sessions.js:21-24 | the new map is `Expired` of the old one, and the invariant is kept |

## Left out

- `createHandshake` (crypto.js:22-24): a bare wrapper around the external Noise handshake library, with no logic of its own.
- Randomness: `randomBytes` is the system CSPRNG. `GenerateChallenge` takes its output as a parameter, of the requested length.
- GenerateChallenge: the model assumes `randomBytes` succeeded. The `RangeError` it throws for a size it refuses (above 2**31-1) is not modelled.
- `DEFAULT_CHALLENGE_LENGTH` is defined in constants.js, which is not part of this model. The model declares it without a value; no contract depends on its value.
- `bint.toString(…, 'hex')` and `bint.concat` come from bint8array, which is not part of this model. They are modelled as lower-case hex text and as plain concatenation.
- Timers: `setTimeout`, the `timeout` argument of `addSession` and the timer handle stored in each session are not modelled. The callback's effect is the explicit step `Expire(id)`, which may happen at any time. So the model does not say when a session expires.
- The callback removes whatever entry is under its key. When the same challenge is added twice, the first timer therefore also removes the second session. `Expire` models this, since it looks only at the key.
- The callback tests `!sessions.get(identifier)`. Stored sessions are objects, which are always truthy, so the model uses key presence.
- `metadata || new Uint8Array(0)` is modelled for a metadata argument that is either a `Uint8Array` (kept, even when empty) or absent. Other falsy JavaScript values are not modelled.
- Session: the source keeps the caller's `Uint8Array` for `challenge` and `metadata` by reference. The model stores values, so `KeysMatch` holds in the source only while no caller writes to a challenge after `addSession`.
- The creation of the shared `Map` happens in authenticator.js, which is not part of this model. `SessionStore`'s constructor stands for it.
- There is no single-use "consume" step; sessions.js has none.
- messages.js, authenticator.js and constants.js are not part of this model. The same holds for the demo script src/index.js and the wallet UI.
