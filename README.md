# ECDH-ES key agreement for JOSE, modelled in Dafny

This project models the JOSE-specific part of ECDH-ES ("Elliptic Curve
Diffie-Hellman Ephemeral Static", RFC 7518 section 4.6) in the Node.js runtime
of the `jose` library, `src/runtime/node/ecdhes.ts`. That file has three parts:

- `deriveKey` accepts a public and a private key, each given as a Web Crypto
  `CryptoKey` or a Node `KeyObject`. It builds the OtherInfo octet string of
  RFC 7518 section 4.6.2, computes the shared secret and runs the Concat KDF
  (NIST SP 800-56A section 5.8.1) over it.
- `generateEpk` picks the ephemeral key pair to generate from the peer's key
  type: x25519, x448, or EC on the peer's named curve.
- `ecdhAllowed` tests whether a key's named curve is one of P-256, P-384,
  P-521, X25519 or X448.

The model is written as functions, lemmas and datatypes, like the source:
the file has no loops and no mutable state. Modules:

- `Results` (results.dfy): `Option` and `Result`. An error is a `Result.Err`.
- `Bytes` (bytes.dfy): octets, the 32-bit big-endian encoding (`uint32be`) with
  its reader and round trips, and length-prefixed segments (`lengthAndInput`).
- `Utf8` (utf8.dfy): the UTF-8 encoding `TextEncoder` applies to the
  algorithm name, with a strict decoder. Encoding and decoding are proved to be
  inverse in both directions.
- `OtherInfo` (other_info.dfy): the four OtherInfo fields, their encoding, a
  reader of length-prefixed segments, a parser, the round trips in both directions, the byte layout, injectivity, and
  the `A128GCM` example.
- `Keys` (keys.dfy): the key representations, the errors, and `Provider`.
  `Provider` is a record of total functions standing for the collaborators the
  file imports: `checkEncCryptoKey`, `KeyObject.from`, `getNamedCurve`,
  `diffieHellman`, `generateKeyPair` and `concatKdf`. Every property is
  proved for every provider, so nothing is assumed about how they behave.
  Where a property needs an assumption about a collaborator, the lemma
  states it as a precondition (`KdfSeparatesContexts`, `GeneratesRequestedCurve`).
- `Ecdhes` (ecdhes.dfy): `deriveKey`, `generateEpk` and `ecdhAllowed`.

`isCryptoKey` and `isKeyObject` are modelled by the constructor of `KeyInput`.
A value is either `CryptoKeyInput`, `KeyObjectInput` or `NotAKey`, and those
are examined in the source's order. `checkEncCryptoKey` returns a `bool`,
where `false` means it threw. `getNamedCurve`, `diffieHellman` and
`generateKeyPair` return an `Option`, where `None` means they threw.
`KeyObject.from` and `concatKdf` are total. A thrown error propagates
unchanged, as in the source. `deriveKey` is a function, so for fixed keys, provider and
arguments its result is deterministic by construction.

Some things a caller might expect are not checked by the code, and the model
follows the code:
- Nothing ensures the public key is a public (non-secret) key. The code runs
  `checkEncCryptoKey(key, 'ECDH-ES')` only on a `CryptoKey`, and takes a
  `KeyObject` as it is.
- A `KeyObject` private key is not checked at all. A public-only key passed
  as the private key fails only inside `diffieHellman` (`AgreementFailed` here).
- An unsupported ephemeral key type raises `JOSENotSupported('Invalid or
  unsupported EPK')` (`NotSupported(UNSUPPORTED_EPK)`), not a TypeError.

## Model

| member | source | states |
|---|---|---|
| `Ecdhes.KeyObjectOf` | src/runtime/node/ecdhes.ts:55-62 | a KeyObject is returned as it is, a CryptoKey becomes `KeyObject.from(key)`; any other value, and only such a value, is a TypeError |
| `Ecdhes.CheckedKeyObject` | src/runtime/node/ecdhes.ts:23-41 | a key is accepted exactly when it is a KeyObject, or a CryptoKey passing the ECDH-ES check with the given usages; an accepted key is its KeyObject; a non-key is the TypeError, a CryptoKey failing the check is that check's error |
| `Ecdhes.DeriveKey` | src/runtime/node/ecdhes.ts:15-52 | a result is returned only after both keys were accepted and OtherInfo could be encoded |
| `Ecdhes.DeriveKeyChecksPublicKeyFirst` | src/runtime/node/ecdhes.ts:23-31 | a rejected public argument is the error of the call, whatever the private argument; a non-key public argument is a TypeError, a public CryptoKey failing the ECDH-ES check is that check's error |
| `Ecdhes.DeriveKeyChecksPrivateKey` | src/runtime/node/ecdhes.ts:33-41 | after an accepted public key, a non-key private argument is a TypeError, and a CryptoKey failing the ECDH-ES check with `deriveBits`/`deriveKey` usages is refused |
| `Ecdhes.DeriveKeyResult` | src/runtime/node/ecdhes.ts:43-51 | success exactly when both keys are accepted, OtherInfo is encodable and agreement succeeds; the result is then `concatKdf(diffieHellman(private, public), keyLength, OtherInfo)`; with both keys accepted, an unencodable length is a RangeError and a throwing `diffieHellman` is AgreementFailed |
| `Ecdhes.DeriveKeyFailsBeforeAgreement` | src/runtime/node/ecdhes.ts:23-50 | when validation or encoding fails, the call fails and its outcome is independent of `diffieHellman` and `concatKdf`: no shared secret is computed |
| `Ecdhes.DeriveKeyDefaultsPartyInfo` | src/runtime/node/ecdhes.ts:20-21 | an omitted `apu`/`apv` behaves as an empty byte string |
| `Ecdhes.DeriveKeyBindsContext` | src/runtime/node/ecdhes.ts:43-51 | with a KDF that separates contexts, equal successful outputs for the same keys imply equal algorithm, key length, `apu` and `apv` |
| `Ecdhes.EpkSpecOf` | src/runtime/node/ecdhes.ts:54-76 | a non-key is a TypeError; x25519 maps to an x25519 pair, x448 to an x448 pair, ec to an EC pair on exactly the curve `getNamedCurve(key)` returns (a throwing `getNamedCurve` is the call's error), any other key type to `JOSENotSupported('Invalid or unsupported EPK')`, each in both directions |
| `Ecdhes.GenerateEpk` | src/runtime/node/ecdhes.ts:54-77 | the call returns exactly the pair `generateKeyPair` returns for the chosen spec, fails with GenerationFailed when it fails, and a dispatch error is the error of the call |
| `Ecdhes.EphemeralKeyMatchesPeer` | src/runtime/node/ecdhes.ts:64-73 | with a generator that honours its request, the ephemeral public key has the peer's key type, and for EC the peer's named curve |
| `Ecdhes.CurveNamed` | src/runtime/node/ecdhes.ts:80 | a curve found by name has that JOSE `crv` name |
| `Ecdhes.CurveNamedCurveName` | src/runtime/node/ecdhes.ts:80 | each registered curve's name leads back to that curve |
| `Ecdhes.EcdhAllowed` | src/runtime/node/ecdhes.ts:79-80 | the call fails exactly when `getNamedCurve` throws |
| `Ecdhes.AllowListIsRegisteredCurves` | src/runtime/node/ecdhes.ts:80 | a name is on the allow-list exactly when it names P-256, P-384, P-521, X25519 or X448 |
| `Ecdhes.EcdhAllowedIffRegisteredCurve` | src/runtime/node/ecdhes.ts:79-80 | true exactly when the key's named curve is a registered ECDH-ES curve, false exactly for any other name (secp256k1 among them) |
| `OtherInfo.Serialize` | src/runtime/node/ecdhes.ts:43-48 | the encoding has length 16 plus the lengths of the three segments |
| `OtherInfo.Encode` | src/runtime/node/ecdhes.ts:43-48 | OtherInfo is 16 octets longer than the UTF-8 algorithm name, `apu` and `apv` together, and parses back to `(utf8(algorithm), apu, apv, keyLength)` |
| `OtherInfo.SerializeLayout` | src/runtime/node/ecdhes.ts:43-48 | the octets are, in order: length of the algorithm id, the id, length of `apu`, `apu`, length of `apv`, `apv`, then the key length, all as 32-bit big-endian |
| `OtherInfo.ParseSerialize` | src/runtime/node/ecdhes.ts:43-48 | reading the three length prefixes and the final four octets recovers every field |
| `OtherInfo.SerializeParse` | src/runtime/node/ecdhes.ts:43-48 | every octet string that parses is the encoding of what it parses to |
| `OtherInfo.EncodeInjective` | src/runtime/node/ecdhes.ts:43-48 | distinct (algorithm, `apu`, `apv`, key length) give distinct OtherInfo |
| `OtherInfo.EncodeA128GCM` | src/runtime/node/ecdhes.ts:43-48 | `("A128GCM", 128)` with empty `apu`/`apv` gives `00 00 00 07 'A128GCM' 00 00 00 00 00 00 00 00 00 00 00 80` |
| `OtherInfo.EncodeWithoutPartyInfo` | src/runtime/node/ecdhes.ts:20-21 | with empty `apu`/`apv` the two middle segments are eight zero octets |
| `Bytes.Uint32BE` | src/runtime/node/ecdhes.ts:47 | four octets; a value below 256 is three zero octets followed by it |
| `Bytes.ReadUint32BEOfUint32BE` | src/runtime/node/ecdhes.ts:47 | decoding a big-endian encoding gives the value back |
| `Bytes.Uint32BEOfReadUint32BE` | src/runtime/node/ecdhes.ts:47 | any four octets are the encoding of the value read from them |
| `Bytes.Uint32BEInjective` | src/runtime/node/ecdhes.ts:47 | distinct 32-bit values have distinct encodings |
| `Bytes.LengthAndInput` | src/runtime/node/ecdhes.ts:44-46 | the segment is its length as 32-bit big-endian followed by the input |
| `Utf8.Encode` | src/runtime/node/ecdhes.ts:44 | the encoding takes between one and four octets per character |
| `Utf8.EncodeAscii` | src/runtime/node/ecdhes.ts:44 | on ASCII text the encoding is the code points themselves |
| `Utf8.DecodeEncode` | src/runtime/node/ecdhes.ts:44 | decoding an encoded string gives it back |
| `Utf8.EncodeDecode` | src/runtime/node/ecdhes.ts:44 | every well-formed octet string is the encoding of its decoding |
| `Utf8.EncodeInjective` | src/runtime/node/ecdhes.ts:44 | distinct algorithm names have distinct encodings |

## Left out

- The Concat KDF (`concatKdf`) and SHA-256: `lib/buffer_utils.js` is not part of this model. The KDF is a provider function, and nothing is claimed about its output length.
- `uint32be` and `lengthAndInput` also come from `lib/buffer_utils.js`. They are written here following RFC 7518 section 4.6.2. A length or key length outside 0 to 2^32 - 1 is modelled as a `RangeError` raised before agreement. Non-integer JavaScript numbers for `keyLength` are not modelled (`keyLength` is an `int`).
- `diffieHellman` and `generateKeyPair` are provider functions. The curve arithmetic is not modelled, so agreement symmetry between two parties is not stated.
- Randomness of `generateKeyPair`: each call is a function of its arguments. The model does not say that two ephemeral pairs differ.
- `getNamedCurve`, `checkEncCryptoKey`, `isCryptoKey`, `isKeyObject` and `KeyObject.from` are not part of this model. The first two are provider functions; the tests are the `KeyInput` constructors.
- The message text of `invalidKeyInput(...)` and the error classes thrown by the collaborators are not modelled: each is one `Error` constructor.
- The `async`/`promisify` plumbing: the operations are synchronous functions.
- JavaScript strings with lone surrogates, which `TextEncoder` replaces with U+FFFD: a Dafny `string` holds only Unicode scalar values.
- `test-deno/jwe_symmetric.test.ts`: Deno tests of whole JWE round trips, which do not exercise ECDH-ES.
