/**
 * The JOSE side of ECDH-ES key agreement on Node.js (`src/runtime/node/ecdhes.ts`):
 * validating the two keys and deriving a key from their shared secret
 * (`deriveKey`), choosing the curve of an ephemeral key from the peer's key
 * (`generateEpk`), and the curves ECDH-ES may use (`ecdhAllowed`).
 */
module Ecdhes {
  import opened Results
  import opened Bytes
  import opened Keys
  import Utf8
  import OtherInfo

  /** The algorithm name passed to checkEncCryptoKey. */
  const ECDH_ES: string := "ECDH-ES"

  /** The usages with which a private CryptoKey must pass checkEncCryptoKey. */
  const PRIVATE_KEY_USAGES: seq<string> := ["deriveBits", "deriveKey"]

  /** The message of the error for a key type with no ephemeral counterpart. */
  const UNSUPPORTED_EPK: string := "Invalid or unsupported EPK"

  // ---------------------------------------------------------------------------
  // Key validation
  // ---------------------------------------------------------------------------

  /** The KeyObject behind `kee`: converted from a CryptoKey, kept as a KeyObject, otherwise a TypeError. */
  function KeyObjectOf(p: Provider, kee: KeyInput): (r: Result<KeyObject, Error>)
    ensures r.Err? <==> kee.NotAKey?
    ensures r.Err? ==> r.error == InvalidKeyInput
    ensures kee.KeyObjectInput? ==> r == Ok(kee.keyObject)
    ensures kee.CryptoKeyInput? ==> r == Ok(p.keyObjectFrom(kee.cryptoKey))
  {
    match kee
    case CryptoKeyInput(ck) => Ok(p.keyObjectFrom(ck))
    case KeyObjectInput(ko) => Ok(ko)
    case NotAKey(_) => Err(InvalidKeyInput)
  }

  /**
   * `KeyObjectOf`, after a CryptoKey has passed checkEncCryptoKey for ECDH-ES
   * with `usages`. A KeyObject is taken as it is.
   */
  function CheckedKeyObject(p: Provider, kee: KeyInput, usages: seq<string>): (r: Result<KeyObject, Error>)
    ensures r.Ok? ==> r == KeyObjectOf(p, kee)
    ensures r.Ok? <==> kee.KeyObjectInput? || (kee.CryptoKeyInput? && p.checkEncCryptoKey(kee.cryptoKey, ECDH_ES, usages))
    ensures kee.NotAKey? ==> r == Err(InvalidKeyInput)
    ensures kee.CryptoKeyInput? && !p.checkEncCryptoKey(kee.cryptoKey, ECDH_ES, usages) ==> r == Err(CryptoKeyRejected)
  {
    if kee.CryptoKeyInput? && !p.checkEncCryptoKey(kee.cryptoKey, ECDH_ES, usages) then Err(CryptoKeyRejected)
    else KeyObjectOf(p, kee)
  }

  /** The public key as `deriveKey` accepts it: no usages are demanded of a CryptoKey. */
  function PublicKeyOf(p: Provider, kee: KeyInput): Result<KeyObject, Error> {
    CheckedKeyObject(p, kee, [])
  }

  /** The private key as `deriveKey` accepts it: a CryptoKey must pass checkEncCryptoKey with the usages deriveBits, deriveKey. */
  function PrivateKeyOf(p: Provider, kee: KeyInput): Result<KeyObject, Error> {
    CheckedKeyObject(p, kee, PRIVATE_KEY_USAGES)
  }

  // ---------------------------------------------------------------------------
  // deriveKey
  // ---------------------------------------------------------------------------

  /** The OtherInfo fields of a call; an omitted `apu` or `apv` is the empty byte string. */
  function CallFields(algorithm: string, keyLength: int, apu: Option<seq<byte>>, apv: Option<seq<byte>>): OtherInfo.Fields {
    OtherInfo.FieldsOf(algorithm, apu.GetOr([]), apv.GetOr([]), keyLength)
  }

  /**
   * `deriveKey(publicKee, privateKee, algorithm, keyLength, apu, apv)`: validate
   * the public key, then the private key, build OtherInfo, agree on a shared
   * secret and run the Concat KDF over it. None for `apu` or `apv` is an
   * omitted argument.
   */
  function DeriveKey(p: Provider, publicKee: KeyInput, privateKee: KeyInput, algorithm: string,
                     keyLength: int, apu: Option<seq<byte>>, apv: Option<seq<byte>>): (r: Result<seq<byte>, Error>)
    ensures r.Ok? ==> PublicKeyOf(p, publicKee).Ok? && PrivateKeyOf(p, privateKee).Ok?
    ensures r.Ok? ==> OtherInfo.Representable(CallFields(algorithm, keyLength, apu, apv))
  {
    var publicKey :- PublicKeyOf(p, publicKee);
    var privateKey :- PrivateKeyOf(p, privateKee);
    var partyUInfo, partyVInfo := apu.GetOr([]), apv.GetOr([]);
    if !OtherInfo.Representable(CallFields(algorithm, keyLength, apu, apv)) then
      Err(RangeError)
    else
      var value := OtherInfo.Encode(algorithm, partyUInfo, partyVInfo, keyLength);
      match p.diffieHellman(privateKey, publicKey)
      case None => Err(AgreementFailed)
      case Some(sharedSecret) => Ok(p.concatKdf(sharedSecret, keyLength, value))
  }

  /** A public argument that is not a key is refused first, whatever the private argument is. */
  lemma DeriveKeyChecksPublicKeyFirst(p: Provider, publicKee: KeyInput, privateKee: KeyInput, algorithm: string,
                                      keyLength: int, apu: Option<seq<byte>>, apv: Option<seq<byte>>)
    requires PublicKeyOf(p, publicKee).Err?
    ensures DeriveKey(p, publicKee, privateKee, algorithm, keyLength, apu, apv) == Err(PublicKeyOf(p, publicKee).error)
    ensures publicKee.NotAKey? ==> DeriveKey(p, publicKee, privateKee, algorithm, keyLength, apu, apv) == Err(InvalidKeyInput)
    ensures publicKee.CryptoKeyInput? && !p.checkEncCryptoKey(publicKee.cryptoKey, ECDH_ES, [])
        ==> DeriveKey(p, publicKee, privateKee, algorithm, keyLength, apu, apv) == Err(CryptoKeyRejected)
  {
  }

  /**
   * Once the public key is accepted, a private argument that is not a key is
   * a TypeError, and a CryptoKey that does not pass the ECDH-ES check with
   * deriveBits and deriveKey usages is refused.
   */
  lemma DeriveKeyChecksPrivateKey(p: Provider, publicKee: KeyInput, privateKee: KeyInput, algorithm: string,
                                  keyLength: int, apu: Option<seq<byte>>, apv: Option<seq<byte>>)
    requires PublicKeyOf(p, publicKee).Ok?
    ensures privateKee.NotAKey? ==> DeriveKey(p, publicKee, privateKee, algorithm, keyLength, apu, apv) == Err(InvalidKeyInput)
    ensures privateKee.CryptoKeyInput? && !p.checkEncCryptoKey(privateKee.cryptoKey, ECDH_ES, ["deriveBits", "deriveKey"])
        ==> DeriveKey(p, publicKee, privateKee, algorithm, keyLength, apu, apv) == Err(CryptoKeyRejected)
  {
  }

  /**
   * `deriveKey` succeeds exactly when both keys are accepted, OtherInfo can be
   * encoded and the agreement succeeds; its result is then the Concat KDF of
   * the shared secret, the key length and OtherInfo.
   */
  lemma DeriveKeyResult(p: Provider, publicKee: KeyInput, privateKee: KeyInput, algorithm: string,
                        keyLength: int, apu: Option<seq<byte>>, apv: Option<seq<byte>>)
    ensures var r := DeriveKey(p, publicKee, privateKee, algorithm, keyLength, apu, apv);
      var publicKey, privateKey := PublicKeyOf(p, publicKee), PrivateKeyOf(p, privateKee);
      var u, v := apu.GetOr([]), apv.GetOr([]);
      && (r.Ok? <==>
           && publicKey.Ok? && privateKey.Ok?
           && OtherInfo.Representable(OtherInfo.FieldsOf(algorithm, u, v, keyLength))
           && p.diffieHellman(privateKey.value, publicKey.value).Some?)
      && (r.Ok? ==>
           r.value == p.concatKdf(p.diffieHellman(privateKey.value, publicKey.value).value, keyLength,
                                  OtherInfo.Encode(algorithm, u, v, keyLength)))
      && (publicKey.Ok? && privateKey.Ok? && !OtherInfo.Representable(OtherInfo.FieldsOf(algorithm, u, v, keyLength))
          ==> r == Err(RangeError))
      && ((&& publicKey.Ok? && privateKey.Ok?
           && OtherInfo.Representable(OtherInfo.FieldsOf(algorithm, u, v, keyLength))
           && p.diffieHellman(privateKey.value, publicKey.value).None?)
          ==> r == Err(AgreementFailed))
  {
  }

  /** `p` and `q` validate keys alike; they may differ in agreement, generation and derivation. */
  ghost predicate SameValidation(p: Provider, q: Provider) {
    p.checkEncCryptoKey == q.checkEncCryptoKey && p.keyObjectFrom == q.keyObjectFrom
  }

  /**
   * When validation fails, or OtherInfo cannot be encoded, the outcome does
   * not depend on diffieHellman or concatKdf: no shared secret is computed.
   */
  lemma DeriveKeyFailsBeforeAgreement(p: Provider, q: Provider, publicKee: KeyInput, privateKee: KeyInput,
                                      algorithm: string, keyLength: int, apu: Option<seq<byte>>, apv: Option<seq<byte>>)
    requires SameValidation(p, q)
    requires PublicKeyOf(p, publicKee).Err? || PrivateKeyOf(p, privateKee).Err?
          || !OtherInfo.Representable(CallFields(algorithm, keyLength, apu, apv))
    ensures DeriveKey(p, publicKee, privateKee, algorithm, keyLength, apu, apv).Err?
    ensures DeriveKey(p, publicKee, privateKee, algorithm, keyLength, apu, apv)
         == DeriveKey(q, publicKee, privateKee, algorithm, keyLength, apu, apv)
  {
  }

  /** Omitting `apu` and `apv` is the same as passing empty byte strings. */
  lemma DeriveKeyDefaultsPartyInfo(p: Provider, publicKee: KeyInput, privateKee: KeyInput, algorithm: string, keyLength: int)
    ensures DeriveKey(p, publicKee, privateKee, algorithm, keyLength, None, None)
         == DeriveKey(p, publicKee, privateKee, algorithm, keyLength, Some([]), Some([]))
  {
  }

  /** The KDF output determines its key length and OtherInfo (given the shared secret). */
  ghost predicate KdfSeparatesContexts(p: Provider) {
    forall secret, k, info, k', info' ::
      p.concatKdf(secret, k, info) == p.concatKdf(secret, k', info') ==> k == k' && info == info'
  }

  /**
   * For the same keys, two successful derivations under a KDF that separates
   * its contexts are equal only when algorithm, key length, `apu` and `apv`
   * are equal: OtherInfo binds every one of them.
   */
  lemma DeriveKeyBindsContext(p: Provider, publicKee: KeyInput, privateKee: KeyInput,
                              algorithm: string, keyLength: int, apu: seq<byte>, apv: seq<byte>,
                              algorithm': string, keyLength': int, apu': seq<byte>, apv': seq<byte>)
    requires KdfSeparatesContexts(p)
    ensures var r := DeriveKey(p, publicKee, privateKee, algorithm, keyLength, Some(apu), Some(apv));
      r.Ok? && DeriveKey(p, publicKee, privateKee, algorithm', keyLength', Some(apu'), Some(apv')) == r
      ==> algorithm == algorithm' && keyLength == keyLength' && apu == apu' && apv == apv'
  {
    var r := DeriveKey(p, publicKee, privateKee, algorithm, keyLength, Some(apu), Some(apv));
    var r' := DeriveKey(p, publicKee, privateKee, algorithm', keyLength', Some(apu'), Some(apv'));
    if r.Ok? && r' == r {
      DeriveKeyResult(p, publicKee, privateKee, algorithm, keyLength, Some(apu), Some(apv));
      DeriveKeyResult(p, publicKee, privateKee, algorithm', keyLength', Some(apu'), Some(apv'));
      var publicKey, privateKey := PublicKeyOf(p, publicKee).value, PrivateKeyOf(p, privateKee).value;
      var secret := p.diffieHellman(privateKey, publicKey).value;
      var info := OtherInfo.Encode(algorithm, apu, apv, keyLength);
      var info' := OtherInfo.Encode(algorithm', apu', apv', keyLength');
      assert p.concatKdf(secret, keyLength, info) == p.concatKdf(secret, keyLength', info');
      OtherInfo.EncodeInjective(algorithm, apu, apv, keyLength, algorithm', apu', apv', keyLength');
    }
  }

  // ---------------------------------------------------------------------------
  // generateEpk
  // ---------------------------------------------------------------------------

  /**
   * The key pair `generateEpk` asks for: the peer's exact curve for x25519 and
   * x448, an EC pair on the peer's named curve for ec, JOSENotSupported for
   * any other key type, and a TypeError for a value that is not a key.
   */
  function EpkSpecOf(p: Provider, kee: KeyInput): (r: Result<EpkSpec, Error>)
    ensures kee.NotAKey? ==> r == Err(InvalidKeyInput)
    ensures !kee.NotAKey? ==> var keyType := KeyObjectOf(p, kee).value.asymmetricKeyType;
      && (r == Ok(X25519Pair) <==> keyType == Some("x25519"))
      && (r == Ok(X448Pair) <==> keyType == Some("x448"))
      && (r.Ok? && r.value.EcPair? <==>
            keyType == Some("ec") && p.getNamedCurve(KeyObjectInput(KeyObjectOf(p, kee).value)).Some?)
      && (r == Err(NotSupported(UNSUPPORTED_EPK)) <==> keyType !in {Some("x25519"), Some("x448"), Some("ec")})
    ensures r.Ok? && r.value.EcPair? ==>
      p.getNamedCurve(KeyObjectInput(KeyObjectOf(p, kee).value)) == Some(r.value.namedCurve)
    ensures (&& !kee.NotAKey? && KeyObjectOf(p, kee).value.asymmetricKeyType == Some("ec")
             && p.getNamedCurve(KeyObjectInput(KeyObjectOf(p, kee).value)).None?)
        ==> r == Err(CurveUnresolved)
  {
    var key :- KeyObjectOf(p, kee);
    if key.asymmetricKeyType == Some("x25519") then Ok(X25519Pair)
    else if key.asymmetricKeyType == Some("x448") then Ok(X448Pair)
    else if key.asymmetricKeyType == Some("ec") then
      match p.getNamedCurve(KeyObjectInput(key))
      case None => Err(CurveUnresolved)
      case Some(namedCurve) => Ok(EcPair(namedCurve))
    else Err(NotSupported(UNSUPPORTED_EPK))
  }

  /** `generateEpk(kee)`: a fresh key pair on the curve `EpkSpecOf` picks. */
  function GenerateEpk(p: Provider, kee: KeyInput): (r: Result<KeyPair, Error>)
    ensures r.Ok? ==> EpkSpecOf(p, kee).Ok? && p.generateKeyPair(EpkSpecOf(p, kee).value) == Some(r.value)
    ensures EpkSpecOf(p, kee).Err? ==> r == Err(EpkSpecOf(p, kee).error)
    ensures EpkSpecOf(p, kee).Ok? && p.generateKeyPair(EpkSpecOf(p, kee).value).None? ==> r == Err(GenerationFailed)
    ensures EpkSpecOf(p, kee).Ok? && p.generateKeyPair(EpkSpecOf(p, kee).value).Some?
         ==> r == Ok(p.generateKeyPair(EpkSpecOf(p, kee).value).value)
  {
    var spec :- EpkSpecOf(p, kee);
    match p.generateKeyPair(spec)
    case None => Err(GenerationFailed)
    case Some(pair) => Ok(pair)
  }

  /** Every pair the generator returns lies on the curve it was asked for. */
  ghost predicate GeneratesRequestedCurve(p: Provider) {
    forall spec: EpkSpec :: p.generateKeyPair(spec).Some? ==>
      var publicKey := p.generateKeyPair(spec).value.publicKey;
      match spec
      case X25519Pair => publicKey.asymmetricKeyType == Some("x25519")
      case X448Pair => publicKey.asymmetricKeyType == Some("x448")
      case EcPair(c) => publicKey.asymmetricKeyType == Some("ec") && p.getNamedCurve(KeyObjectInput(publicKey)) == Some(c)
  }

  /**
   * With a generator that honours its request, the ephemeral public key has
   * the peer's key type, and for an EC peer the peer's named curve.
   */
  lemma EphemeralKeyMatchesPeer(p: Provider, kee: KeyInput)
    requires GeneratesRequestedCurve(p)
    requires GenerateEpk(p, kee).Ok?
    ensures var peer, epk := KeyObjectOf(p, kee).value, GenerateEpk(p, kee).value.publicKey;
      && epk.asymmetricKeyType == peer.asymmetricKeyType
      && (peer.asymmetricKeyType == Some("ec") ==>
            p.getNamedCurve(KeyObjectInput(epk)) == p.getNamedCurve(KeyObjectInput(peer)))
  {
    var spec := EpkSpecOf(p, kee).value;
    assert p.generateKeyPair(spec).Some?;
  }

  // ---------------------------------------------------------------------------
  // ecdhAllowed
  // ---------------------------------------------------------------------------

  /** The curves registered for ECDH-ES (RFC 7518 section 6.2.1.1, RFC 8037 section 2). */
  datatype Curve = P256 | P384 | P521 | X25519 | X448

  /** The JOSE `crv` name of a curve. */
  function CurveName(c: Curve): string {
    match c
    case P256 => "P-256"
    case P384 => "P-384"
    case P521 => "P-521"
    case X25519 => "X25519"
    case X448 => "X448"
  }

  /** The curve with JOSE `crv` name `name`, if any. */
  function CurveNamed(name: string): (r: Option<Curve>)
    ensures r.Some? ==> CurveName(r.value) == name
  {
    if name == "P-256" then Some(P256)
    else if name == "P-384" then Some(P384)
    else if name == "P-521" then Some(P521)
    else if name == "X25519" then Some(X25519)
    else if name == "X448" then Some(X448)
    else None
  }

  /** Naming a curve and looking the name up give the curve back. */
  lemma CurveNamedCurveName(c: Curve)
    ensures CurveNamed(CurveName(c)) == Some(c)
  {
  }

  /** The allow-list in `ecdhAllowed`. */
  const ECDH_CURVES: seq<string> := ["P-256", "P-384", "P-521", "X25519", "X448"]

  /** `ecdhAllowed(key)`: whether the named curve of `key` is on the allow-list. */
  function EcdhAllowed(p: Provider, key: KeyInput): (r: Result<bool, Error>)
    ensures p.getNamedCurve(key).None? <==> r == Err(CurveUnresolved)
  {
    match p.getNamedCurve(key)
    case None => Err(CurveUnresolved)
    case Some(name) => Ok(name in ECDH_CURVES)
  }

  /** The allow-list holds exactly the names of the registered ECDH-ES curves. */
  lemma AllowListIsRegisteredCurves(name: string)
    ensures name in ECDH_CURVES <==> CurveNamed(name).Some?
  {
  }

  /**
   * `ecdhAllowed` is true exactly for keys on P-256, P-384, P-521, X25519 or
   * X448, and false for keys on any other named curve, such as secp256k1.
   */
  lemma EcdhAllowedIffRegisteredCurve(p: Provider, key: KeyInput)
    requires p.getNamedCurve(key).Some?
    ensures EcdhAllowed(p, key) == Ok(true) <==> exists c: Curve :: p.getNamedCurve(key) == Some(CurveName(c))
    ensures EcdhAllowed(p, key) == Ok(false) <==> CurveNamed(p.getNamedCurve(key).value).None?
    ensures p.getNamedCurve(key) == Some("secp256k1") ==> EcdhAllowed(p, key) == Ok(false)
  {
    var name := p.getNamedCurve(key).value;
    AllowListIsRegisteredCurves(name);
    if CurveNamed(name).Some? {
      assert p.getNamedCurve(key) == Some(CurveName(CurveNamed(name).value));
    }
  }
}
