/**
 * The OtherInfo octet string that ECDH-ES binds into the Concat KDF
 * (RFC 7518 section 4.6.2, the one-step KDF of NIST SP 800-56A section 5.8.1):
 * AlgorithmID, PartyUInfo and PartyVInfo each preceded by its 32-bit
 * big-endian length, then SuppPubInfo, the key length in bits as a 32-bit
 * big-endian integer.
 */
module OtherInfo {
  import opened Results
  import opened Bytes
  import Utf8

  /** The four fields of OtherInfo, as octet strings and an integer. */
  datatype Fields = Fields(algorithmId: seq<byte>, partyUInfo: seq<byte>, partyVInfo: seq<byte>, suppPubInfo: int)

  /** Every field fits its 32-bit length prefix or integer encoding. */
  predicate Representable(f: Fields) {
    IsUint32(|f.algorithmId|) && IsUint32(|f.partyUInfo|) && IsUint32(|f.partyVInfo|) && IsUint32(f.suppPubInfo)
  }

  /** The octets of `f`, in the order RFC 7518 section 4.6.2 lays them out. */
  function Serialize(f: Fields): (r: seq<byte>)
    requires Representable(f)
    ensures |r| == 16 + |f.algorithmId| + |f.partyUInfo| + |f.partyVInfo|
  {
    LengthAndInput(f.algorithmId) + LengthAndInput(f.partyUInfo) + LengthAndInput(f.partyVInfo) + Uint32BE(f.suppPubInfo)
  }

  /** Splits one length-prefixed segment off the front of `b`, giving it and the octets after it. */
  function ReadLengthPrefixed(b: seq<byte>): (r: Option<(seq<byte>, seq<byte>)>)
    ensures r.Some? ==> 4 + |r.value.0| + |r.value.1| == |b|
  {
    if |b| < 4 then None
    else
      var n := ReadUint32BE(b[..4]);
      if |b| - 4 < n then None else Some((b[4..4 + n], b[4 + n..]))
  }

  /**
   * The fields of an OtherInfo octet string: three length-prefixed segments
   * followed by exactly four octets; None for any other shape.
   */
  function Parse(b: seq<byte>): (r: Option<Fields>)
    ensures r.Some? ==> Representable(r.value)
  {
    match ReadLengthPrefixed(b)
    case None => None
    case Some((alg, b1)) =>
      match ReadLengthPrefixed(b1)
      case None => None
      case Some((u, b2)) =>
        match ReadLengthPrefixed(b2)
        case None => None
        case Some((v, b3)) =>
          if |b3| != 4 then None else Some(Fields(alg, u, v, ReadUint32BE(b3)))
  }

  /** A length-prefixed segment is read back, and what follows it is left over. */
  lemma ReadLengthPrefixedOfLengthAndInput(x: seq<byte>, rest: seq<byte>)
    requires IsUint32(|x|)
    ensures ReadLengthPrefixed(LengthAndInput(x) + rest) == Some((x, rest))
  {
    var b := LengthAndInput(x) + rest;
    assert b[..4] == LengthAndInput(x)[..4];
    assert b[4..4 + |x|] == x;
    assert b[4 + |x|..] == rest;
  }

  /** Parsing recovers the fields that were serialized. */
  lemma ParseSerialize(f: Fields)
    requires Representable(f)
    ensures Parse(Serialize(f)) == Some(f)
  {
    var a, u, v, k := LengthAndInput(f.algorithmId), LengthAndInput(f.partyUInfo), LengthAndInput(f.partyVInfo), Uint32BE(f.suppPubInfo);
    assert Serialize(f) == a + (u + v + k);
    ReadLengthPrefixedOfLengthAndInput(f.algorithmId, u + v + k);
    assert u + v + k == u + (v + k);
    ReadLengthPrefixedOfLengthAndInput(f.partyUInfo, v + k);
    ReadLengthPrefixedOfLengthAndInput(f.partyVInfo, k);
    ReadUint32BEOfUint32BE(f.suppPubInfo);
  }

  /** A segment that was read off `b` is put back by re-encoding it. */
  lemma LengthAndInputOfReadLengthPrefixed(b: seq<byte>)
    requires ReadLengthPrefixed(b).Some?
    ensures IsUint32(|ReadLengthPrefixed(b).value.0|)
    ensures LengthAndInput(ReadLengthPrefixed(b).value.0) + ReadLengthPrefixed(b).value.1 == b
  {
    var (x, rest) := ReadLengthPrefixed(b).value;
    Uint32BEOfReadUint32BE(b[..4]);
    assert b == b[..4] + b[4..4 + |x|] + b[4 + |x|..];
  }

  /** Every octet string that parses is the serialization of what it parses to. */
  lemma SerializeParse(b: seq<byte>)
    requires Parse(b).Some?
    ensures Serialize(Parse(b).value) == b
  {
    var (alg, b1) := ReadLengthPrefixed(b).value;
    var (u, b2) := ReadLengthPrefixed(b1).value;
    var (v, b3) := ReadLengthPrefixed(b2).value;
    var f := Parse(b).value;
    assert f == Fields(alg, u, v, ReadUint32BE(b3));
    LengthAndInputOfReadLengthPrefixed(b);
    LengthAndInputOfReadLengthPrefixed(b1);
    LengthAndInputOfReadLengthPrefixed(b2);
    Uint32BEOfReadUint32BE(b3);
    ConcatOfFour(LengthAndInput(alg), LengthAndInput(u), LengthAndInput(v), b3, b1, b2, b);
  }

  /** Three nested splits of `b` are one split into four parts. */
  lemma ConcatOfFour(x: seq<byte>, y: seq<byte>, z: seq<byte>, w: seq<byte>, b1: seq<byte>, b2: seq<byte>, b: seq<byte>)
    requires b2 == z + w && b1 == y + b2 && b == x + b1
    ensures x + y + z + w == b
  {
  }

  /** The fields that `deriveKey` passes: the UTF-8 algorithm name, `apu`, `apv` and the key length. */
  function FieldsOf(algorithm: string, apu: seq<byte>, apv: seq<byte>, keyLength: int): Fields {
    Fields(Utf8.Encode(algorithm), apu, apv, keyLength)
  }

  /** The concatenation built in `deriveKey` from its algorithm, key length, `apu` and `apv`. */
  function Encode(algorithm: string, apu: seq<byte>, apv: seq<byte>, keyLength: int): (r: seq<byte>)
    requires Representable(FieldsOf(algorithm, apu, apv, keyLength))
    ensures |r| == 16 + |Utf8.Encode(algorithm)| + |apu| + |apv|
    ensures Parse(r) == Some(Fields(Utf8.Encode(algorithm), apu, apv, keyLength))
  {
    ParseSerialize(FieldsOf(algorithm, apu, apv, keyLength));
    Serialize(FieldsOf(algorithm, apu, apv, keyLength))
  }

  /** Where each field sits in the octets: prefix, segment, prefix, segment, prefix, segment, integer. */
  lemma SerializeLayout(f: Fields)
    requires Representable(f)
    ensures var r, a, u, v := Serialize(f), f.algorithmId, f.partyUInfo, f.partyVInfo;
      var i, j := 8 + |a|, 12 + |a| + |u|;
      && r[..4] == Uint32BE(|a|) && r[4..4 + |a|] == a
      && r[4 + |a|..i] == Uint32BE(|u|) && r[i..i + |u|] == u
      && r[i + |u|..j] == Uint32BE(|v|) && r[j..j + |v|] == v
      && r[j + |v|..] == Uint32BE(f.suppPubInfo)
  {
    var p, q, s := LengthAndInput(f.algorithmId), LengthAndInput(f.partyUInfo), LengthAndInput(f.partyVInfo);
    SlicesOfConcat(p, q, s, Uint32BE(f.suppPubInfo));
  }

  /** The positions of four consecutive parts of a concatenation. */
  lemma SlicesOfConcat(p: seq<byte>, q: seq<byte>, s: seq<byte>, t: seq<byte>)
    ensures var r, i, j, k := p + q + s + t, |p|, |p| + |q|, |p| + |q| + |s|;
      r[..i] == p && r[i..j] == q && r[j..k] == s && r[k..] == t
  {
  }

  /** Distinct inputs give distinct OtherInfo, so every input selects its own KDF context. */
  lemma EncodeInjective(alg: string, apu: seq<byte>, apv: seq<byte>, keyLength: int,
                        alg': string, apu': seq<byte>, apv': seq<byte>, keyLength': int)
    requires Representable(FieldsOf(alg, apu, apv, keyLength))
    requires Representable(FieldsOf(alg', apu', apv', keyLength'))
    ensures Encode(alg, apu, apv, keyLength) == Encode(alg', apu', apv', keyLength')
        ==> alg == alg' && apu == apu' && apv == apv' && keyLength == keyLength'
  {
    if Encode(alg, apu, apv, keyLength) == Encode(alg', apu', apv', keyLength') {
      Utf8.EncodeInjective(alg, alg');
    }
  }

  /**
   * With `apu` and `apv` empty, the two middle segments are four zero octets
   * each: `("A128GCM", 128)` gives 00 00 00 07 'A128GCM' followed by
   * 00 00 00 00 00 00 00 00 00 00 00 80.
   */
  lemma EncodeA128GCM()
    ensures Encode("A128GCM", [], [], 128)
         == [0, 0, 0, 7, 0x41, 0x31, 0x32, 0x38, 0x47, 0x43, 0x4D, 0, 0, 0, 0, 0, 0, 0, 0, 0, 0, 0, 0x80]
  {
    var a: seq<byte> := [0x41, 0x31, 0x32, 0x38, 0x47, 0x43, 0x4D];
    Utf8.EncodeAscii("A128GCM");
    assert Utf8.Encode("A128GCM") == a;
    EncodeWithoutPartyInfo("A128GCM", 128);
    assert LengthAndInput(a) == [0, 0, 0, 7] + a;
    assert Uint32BE(128) == [0, 0, 0, 0x80];
    OctetsOfA128GCM([0, 0, 0, 7], a, [0, 0, 0, 0, 0, 0, 0, 0], [0, 0, 0, 0x80]);
  }

  /** The concatenation in EncodeA128GCM, written out. */
  lemma OctetsOfA128GCM(p: seq<byte>, a: seq<byte>, z: seq<byte>, k: seq<byte>)
    requires p == [0, 0, 0, 7] && a == [0x41, 0x31, 0x32, 0x38, 0x47, 0x43, 0x4D]
    requires z == [0, 0, 0, 0, 0, 0, 0, 0] && k == [0, 0, 0, 0x80]
    ensures p + a + z + k == [0, 0, 0, 7, 0x41, 0x31, 0x32, 0x38, 0x47, 0x43, 0x4D, 0, 0, 0, 0, 0, 0, 0, 0, 0, 0, 0, 0x80]
  {
  }

  /** With `apu` and `apv` empty, eight zero octets separate the algorithm name from the key length. */
  lemma EncodeWithoutPartyInfo(algorithm: string, keyLength: int)
    requires Representable(FieldsOf(algorithm, [], [], keyLength))
    ensures var a := Utf8.Encode(algorithm);
      Encode(algorithm, [], [], keyLength) == LengthAndInput(a) + [0, 0, 0, 0, 0, 0, 0, 0] + Uint32BE(keyLength)
  {
    var empty: seq<byte> := [];
    assert LengthAndInput(empty) == [0, 0, 0, 0];
    assert LengthAndInput(empty) + LengthAndInput(empty) == [0, 0, 0, 0, 0, 0, 0, 0];
  }
}
