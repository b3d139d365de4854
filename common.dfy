/** Byte-level vocabulary shared by the APDU codec, the file-access layer
    and the payload decoders: Go's byte and uint16, the two failure-compatible
    result types, and big-endian 16-bit fields. */
module Common {

  /** Go's `byte`. */
  type uint8 = x: int | 0 <= x < 0x100

  /** Go's `uint16` (status words, offsets, length prefixes). */
  type uint16 = x: int | 0 <= x < 0x1_0000

  datatype Option<+T> = None | Some(value: T)

  datatype Result<+T, +E> = Success(value: T) | Failure(error: E)

  /** Go's conversion `byte(n)`: keeps the low eight bits (two's complement
      for negative n, which Dafny's Euclidean `%` reproduces). */
  function Byte(n: int): (b: uint8)
    ensures (n - b) % 0x100 == 0
  {
    n % 0x100
  }

  /** `binary.BigEndian.Uint16` on two bytes. */
  function BigEndian16(hi: uint8, lo: uint8): uint16
  {
    hi * 0x100 + lo
  }

  /** The two bytes of v, most significant first. */
  function ToBigEndian16(v: uint16): (r: seq<uint8>)
    ensures |r| == 2 && BigEndian16(r[0], r[1]) == v
  {
    [v / 0x100, v % 0x100]
  }

  /** Reading two bytes as a big-endian number and writing it back gives the bytes. */
  lemma BigEndian16RoundTrip(hi: uint8, lo: uint8)
    ensures ToBigEndian16(BigEndian16(hi, lo)) == [hi, lo]
  {
  }

  /** `k` zero bytes. */
  function Zeros(k: nat): (r: seq<uint8>)
    ensures |r| == k && forall i :: 0 <= i < k ==> r[i] == 0
  {
    seq(k, _ => 0)
  }

  predicate AllZero(s: seq<uint8>)
  {
    forall i :: 0 <= i < |s| ==> s[i] == 0
  }
}
