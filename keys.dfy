/**
 * The key representations `ecdhes.ts` accepts, the errors it raises, and the
 * collaborators it calls but does not define. Each collaborator is a field of
 * `Provider` holding a total function, so the operations are proved for every
 * behaviour those collaborators might have.
 */
module Keys {
  import opened Results
  import opened Bytes

  /** A Web Crypto `CryptoKey`; its attributes are read only by the collaborators. */
  datatype CryptoKey = CryptoKey(handle: nat)

  /**
   * A Node.js `KeyObject`. `asymmetricKeyType` is None for a secret key,
   * otherwise the Node name of the key type (`"ec"`, `"x25519"`, `"x448"`, ...).
   */
  datatype KeyObject = KeyObject(asymmetricKeyType: Option<string>, handle: nat)

  /** What a caller may pass where a key is expected: either key form, or any other value. */
  datatype KeyInput =
    | CryptoKeyInput(cryptoKey: CryptoKey)
    | KeyObjectInput(keyObject: KeyObject)
    | NotAKey(description: string)

  /** A freshly generated key pair. */
  datatype KeyPair = KeyPair(publicKey: KeyObject, privateKey: KeyObject)

  /** What the operations throw. */
  datatype Error =
    | InvalidKeyInput                // TypeError built by invalidKeyInput: neither a CryptoKey nor a KeyObject
    | CryptoKeyRejected              // thrown by checkEncCryptoKey
    | NotSupported(message: string)  // JOSENotSupported
    | CurveUnresolved                // thrown by getNamedCurve
    | RangeError                     // a length or key length with no 32-bit big-endian encoding
    | AgreementFailed                // thrown by diffieHellman
    | GenerationFailed               // rejected by generateKeyPair

  /** Node's `generateKeyPair` arguments for an ephemeral key. */
  datatype EpkSpec = X25519Pair | X448Pair | EcPair(namedCurve: string)

  /**
   * The functions `ecdhes.ts` imports. An Option result of None stands for
   * the helper throwing.
   */
  datatype Provider = Provider(
    // checkEncCryptoKey(key, alg, ...usages) returns normally
    checkEncCryptoKey: (CryptoKey, string, seq<string>) -> bool,
    // KeyObject.from
    keyObjectFrom: CryptoKey -> KeyObject,
    // getNamedCurve
    getNamedCurve: KeyInput -> Option<string>,
    // crypto.diffieHellman({ privateKey, publicKey })
    diffieHellman: (KeyObject, KeyObject) -> Option<seq<byte>>,
    // generateKeyPair(type, options); a function of its arguments, standing for one draw of randomness
    generateKeyPair: EpkSpec -> Option<KeyPair>,
    // concatKdf(sharedSecret, keyLength, otherInfo)
    concatKdf: (seq<byte>, int, seq<byte>) -> seq<byte>
  )
}
