/**
 Byte-stream primitives the PER codec is built on, and the shapes its
 operations return.

 The codec writes to an `io.Writer` and reads from an `io.Reader` through a
 small helper package of fixed-width big-endian readers and writers. Here a
 writer is a function returning the bytes it would append, and a reader takes
 the input as a sequence and hands back the value read together with the
 input that remains. A read that finds too few bytes yields 0 and consumes
 whatever was left, which is what `io.ReadFull` does on a byte reader.
 */
module Core {

  /** An octet, as Go's `uint8` holds it. */
  type byte = b: int | 0 <= b < 0x100

  type Bytes = seq<byte>

  /** A value read from the front of a byte stream, and what is left of it. */
  datatype Decoded<T> = Decoded(value: T, rest: Bytes)

  /** The ways a decode can fail. */
  datatype Error =
    | ShortRead                                    // the stream ended before the field did
    | ExpectUnreadable(expected: byte)               // an expected byte could not be read
    | ExpectMismatch(expected: byte, actual: byte)   // a byte other than the expected one was read

  datatype Result<T> = Success(value: T) | Failure(error: Error)

  /** 256 to the power `n`: the number of values `n` bytes can hold. */
  function Pow256(n: nat): (r: nat)
    ensures r >= 1
  {
    if n == 0 then 1 else 256 * Pow256(n - 1)
  }

  /** The number a big-endian byte string stands for. */
  function BigEndian(b: Bytes): nat
  {
    if |b| == 0 then 0 else BigEndian(b[..|b| - 1]) * 256 + b[|b| - 1]
  }

  /** `v` written most significant byte first in exactly `width` bytes. */
  function ToBigEndian(v: nat, width: nat): (r: Bytes)
    requires v < Pow256(width)
    ensures |r| == width
    ensures BigEndian(r) == v
  {
    if width == 0 then []
    else
      DivideByBase(v, Pow256(width - 1));
      var high := ToBigEndian(v / 256, width - 1);
      assert (high + [v % 256])[..width - 1] == high;
      high + [v % 256]
  }

  lemma DivideByBase(v: nat, bound: nat)
    requires v < 256 * bound
    ensures v / 256 < bound
  {
  }

  lemma BigEndianPair(b: Bytes)
    requires |b| == 2
    ensures BigEndian(b) == b[0] as int * 256 + b[1] as int
  {
    var first := b[..1];
    assert first[..0] == [] && first[0] == b[0];
    assert BigEndian(first) == b[0];
    assert b[..|b| - 1] == first;
  }

  /** What a reader that fills missing bytes with zero sees at position `i`. */
  function ByteAt(s: Bytes, i: nat): byte
  {
    if i < |s| then s[i] else 0
  }

  function WriteUInt8(v: byte): Bytes
  {
    [v]
  }

  function WriteUInt16BE(v: nat): Bytes
    requires v <= 0xFFFF
  {
    ToBigEndian(v, 2)
  }

  function WriteUInt32BE(v: nat): Bytes
    requires v <= 0xFFFF_FFFF
  {
    ToBigEndian(v, 4)
  }

  function ReadUInt8(s: Bytes): Decoded<byte>
  {
    if |s| == 0 then Decoded(0, s) else Decoded(s[0], s[1..])
  }

  /** What is left of `s` after `n` single-byte reads. */
  function Skip(s: Bytes, n: nat): Bytes
  {
    if |s| < n then [] else s[n..]
  }

  /** `n` single-byte reads in a row, each giving 0 once the input is used up. */
  function ReadEachByte(s: Bytes, n: nat): (r: Decoded<Bytes>)
    ensures |r.value| == n
    ensures forall i :: 0 <= i < n ==> r.value[i] == ByteAt(s, i)
    ensures r.rest == Skip(s, n)
  {
    if n == 0 then
      Decoded([], s)
    else
      var b := ReadUInt8(s);
      var more := ReadEachByte(b.rest, n - 1);
      assert forall i :: 1 <= i < n ==> ByteAt(s, i) == ByteAt(b.rest, i - 1);
      Decoded([b.value] + more.value, more.rest)
  }

  /** A `width`-byte big-endian read; on a short stream, 0 and nothing left. */
  function ReadBigEndian(s: Bytes, width: nat): Decoded<nat>
  {
    if |s| < width then Decoded(0, []) else Decoded(BigEndian(s[..width]), s[width..])
  }

  function ReadUInt16BE(s: Bytes): Decoded<nat>
  {
    ReadBigEndian(s, 2)
  }

  function ReadUInt32BE(s: Bytes): Decoded<nat>
  {
    ReadBigEndian(s, 4)
  }

  /** A big-endian string of `width` bytes reads back as the value written. */
  lemma BigEndianRoundTrip(v: nat, width: nat, t: Bytes)
    requires v < Pow256(width)
    ensures ReadBigEndian(ToBigEndian(v, width) + t, width) == Decoded(v, t)
  {
    var w := ToBigEndian(v, width);
    assert (w + t)[..width] == w;
    assert (w + t)[width..] == t;
  }
}
