/** The key-length check and challenge generation of packages/auth/src/crypto.js. */
module Crypto {
  import opened Base

  /** The parameters of an elliptic curve that the check consults:
      its name and the byte lengths of its public and secret keys. */
  datatype Curve = Curve(alg: string, pkLen: nat, skLen: nat)

  /** Length of a challenge when the caller asks for none. Its value is set
      in constants.js, which is not part of this model, so it is left open. */
  const DEFAULT_CHALLENGE_LENGTH: nat

  function PublicKeySizeError(alg: string): string {
    "Invalid publicKey size for curve: " + alg
  }

  function SecretKeySizeError(alg: string): string {
    "Invalid secretKey size for curve: " + alg
  }

  /** A key passes when it is absent or has exactly the expected length.
      A present key of length zero is still a key and is still compared. */
  predicate Fits(key: Option<Bytes>, len: nat) {
    key.None? || |key.value| == len
  }

  /** `validateKeyForCurve`: the public key is checked first, then the secret
      key; the first mismatch is thrown, otherwise the answer is `true`. */
  function ValidateKeyForCurve(curve: Curve, publicKey: Option<Bytes>, secretKey: Option<Bytes>)
    : (r: Result<bool, string>)
    ensures r.Success? <==> Fits(publicKey, curve.pkLen) && Fits(secretKey, curve.skLen)
    ensures r.Success? ==> r.value
    ensures r.Failure? ==> r.error == if Fits(publicKey, curve.pkLen)
                                      then SecretKeySizeError(curve.alg)
                                      else PublicKeySizeError(curve.alg)
  {
    if publicKey.Some? && curve.pkLen != |publicKey.value| then
      Failure(PublicKeySizeError(curve.alg))
    else if secretKey.Some? && curve.skLen != |secretKey.value| then
      Failure(SecretKeySizeError(curve.alg))
    else
      Success(true)
  }

  /** A wrong public key is reported, whatever the secret key is. */
  lemma PublicKeyCheckedFirst(curve: Curve, publicKey: Bytes, secretKey: Option<Bytes>)
    requires |publicKey| != curve.pkLen
    ensures ValidateKeyForCurve(curve, Some(publicKey), secretKey) == Failure(PublicKeySizeError(curve.alg))
  {
  }

  /** A wrong secret key is reported when the public key is absent or fits. */
  lemma SecretKeyMismatch(curve: Curve, publicKey: Option<Bytes>, secretKey: Bytes)
    requires Fits(publicKey, curve.pkLen) && |secretKey| != curve.skLen
    ensures ValidateKeyForCurve(curve, publicKey, Some(secretKey)) == Failure(SecretKeySizeError(curve.alg))
  {
  }

  /** With no key at all there is nothing to check. */
  lemma NoKeysIsValid(curve: Curve)
    ensures ValidateKeyForCurve(curve, None, None) == Success(true)
  {
  }

  /** An empty `Uint8Array` is truthy in JavaScript, so it is still compared. */
  lemma EmptyPublicKeyIsChecked(curve: Curve, secretKey: Option<Bytes>)
    requires curve.pkLen > 0
    ensures ValidateKeyForCurve(curve, Some([]), secretKey) == Failure(PublicKeySizeError(curve.alg))
  {
  }

  /** A public key of the curve's length, with a fitting or absent secret key, passes. */
  lemma MatchingKeysAreValid(curve: Curve, publicKey: Bytes, secretKey: Option<Bytes>)
    requires |publicKey| == curve.pkLen && Fits(secretKey, curve.skLen)
    ensures ValidateKeyForCurve(curve, Some(publicKey), secretKey) == Success(true)
  {
  }

  /** The thrown message names the curve and tells which key was wrong:
      the two messages never coincide, and each determines the curve name. */
  lemma {:induction false} ErrorMessagesIdentify(a: string, b: string)
    ensures PublicKeySizeError(a) != SecretKeySizeError(b)
    ensures PublicKeySizeError(a) == PublicKeySizeError(b) ==> a == b
    ensures SecretKeySizeError(a) == SecretKeySizeError(b) ==> a == b
  {
    assert PublicKeySizeError(a)[8] == 'p';
    assert SecretKeySizeError(b)[8] == 's';
    var n := |"Invalid publicKey size for curve: "|;
    assert n == |"Invalid secretKey size for curve: "|;
    if PublicKeySizeError(a) == PublicKeySizeError(b) {
      assert a == PublicKeySizeError(a)[n..];
      assert b == PublicKeySizeError(b)[n..];
    }
    if SecretKeySizeError(a) == SecretKeySizeError(b) {
      assert a == SecretKeySizeError(a)[n..];
      assert b == SecretKeySizeError(b)[n..];
    }
  }

  /** The message a signer sees when the remote public key belongs to a curve
      of another size, for the curve named "secp256k1". */
  lemma ForeignRemoteKeyMessage(curve: Curve, remotePK: Bytes)
    requires curve.alg == "secp256k1" && |remotePK| != curve.pkLen
    ensures ValidateKeyForCurve(curve, Some(remotePK), None)
            == Failure("Invalid publicKey size for curve: secp256k1")
  {
    assert PublicKeySizeError("secp256k1") == "Invalid publicKey size for curve: secp256k1";
  }

  /** `bint.concat`, for the one-part call that `generateChallenge` makes. */
  function Concat(parts: seq<Bytes>): (r: Bytes)
    ensures |parts| == 1 ==> r == parts[0]
  {
    if parts == [] then [] else parts[0] + Concat(parts[1..])
  }

  /** The number of bytes `generateChallenge` asks for. */
  function ChallengeLength(challengeLength: Option<nat>): nat {
    challengeLength.GetOr(DEFAULT_CHALLENGE_LENGTH)
  }

  /** `generateChallenge`: `randomBytes` is what the system's random source
      returned for the requested length; the challenge is a copy of it. */
  function GenerateChallenge(challengeLength: Option<nat>, randomBytes: Bytes): (challenge: Bytes)
    requires |randomBytes| == ChallengeLength(challengeLength)
    ensures challengeLength.Some? ==> |challenge| == challengeLength.value
    ensures challengeLength.None? ==> |challenge| == DEFAULT_CHALLENGE_LENGTH
    ensures forall i :: 0 <= i < |challenge| ==> challenge[i] == randomBytes[i]
  {
    Concat([randomBytes])
  }
}
