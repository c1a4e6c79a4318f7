/**
 * Byte strings and the two fixed encodings used by the Concat KDF input of
 * RFC 7518 section 4.6.2: a 32-bit big-endian unsigned integer, and a byte
 * string preceded by its length as such an integer.
 */
module Bytes {

  /** An octet, the element type of a `Uint8Array`. */
  type byte = x: int | 0 <= x < 0x100

  /** One more than the largest value a 32-bit unsigned integer can hold. */
  const UINT32_LIMIT: int := 0x1_0000_0000

  predicate IsUint32(n: int) {
    0 <= n < UINT32_LIMIT
  }

  /** The four octets of `n`, most significant first. */
  function Uint32BE(n: int): (r: seq<byte>)
    requires IsUint32(n)
    ensures |r| == 4
    ensures n < 0x100 ==> r == [0, 0, 0, n]
  {
    [n / 0x100_0000, (n / 0x1_0000) % 0x100, (n / 0x100) % 0x100, n % 0x100]
  }

  /** The unsigned integer whose big-endian encoding is the four octets `b`. */
  function ReadUint32BE(b: seq<byte>): (n: int)
    requires |b| == 4
    ensures IsUint32(n)
  {
    ((b[0] as int * 0x100 + b[1]) * 0x100 + b[2]) * 0x100 + b[3]
  }

  /** Reading back an encoded integer gives the integer. */
  lemma ReadUint32BEOfUint32BE(n: int)
    requires IsUint32(n)
    ensures ReadUint32BE(Uint32BE(n)) == n
  {
    var b := Uint32BE(n);
    assert n == b[0] * 0x100_0000 + (n % 0x100_0000);
    assert n % 0x100_0000 == b[1] * 0x1_0000 + (n % 0x1_0000);
    assert n % 0x1_0000 == b[2] as int * 0x100 + b[3];
  }

  /** Every four octets are the encoding of the integer read from them. */
  lemma Uint32BEOfReadUint32BE(b: seq<byte>)
    requires |b| == 4
    ensures Uint32BE(ReadUint32BE(b)) == b
  {
    var n := ReadUint32BE(b);
    assert n == b[0] as int * 0x100_0000 + (b[1] as int * 0x1_0000 + b[2] as int * 0x100 + b[3]);
    assert n / 0x100_0000 == b[0];
    assert n / 0x1_0000 == b[0] as int * 0x100 + b[1];
    assert n / 0x100 == (b[0] as int * 0x100 + b[1]) * 0x100 + b[2];
  }

  /** The encoding of integers is one-to-one. */
  lemma Uint32BEInjective(m: int, n: int)
    requires IsUint32(m) && IsUint32(n)
    requires Uint32BE(m) == Uint32BE(n)
    ensures m == n
  {
    ReadUint32BEOfUint32BE(m);
    ReadUint32BEOfUint32BE(n);
  }

  /** `x` preceded by its length as a 32-bit big-endian integer. */
  function LengthAndInput(x: seq<byte>): (r: seq<byte>)
    requires IsUint32(|x|)
    ensures |r| == 4 + |x|
    ensures r[..4] == Uint32BE(|x|) && ReadUint32BE(r[..4]) == |x| && r[4..] == x
  {
    ReadUint32BEOfUint32BE(|x|);
    Uint32BE(|x|) + x
  }
}
