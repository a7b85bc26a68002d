/**
 Shared vocabulary of the ping model: octets, an optional value, the integer
 widths of the `struct` format codes used by ping.py (`b`, `H`, `h`), and the
 network (big-endian) byte order those codes write with the `!` prefix.
 */
module Base {

  /** One octet of a packet or datagram. */
  type Byte = b: int | 0 <= b < 256

  /** A value that may be absent; used where the source raises an exception. */
  datatype Option<+T> = None | Some(value: T)

  const TwoTo16: int := 0x1_0000

  /** Range accepted by `struct` code `b` (signed char). */
  predicate FitsI8(v: int) {
    -0x80 <= v < 0x80
  }

  /** Range accepted by `struct` code `H` (unsigned short). */
  predicate FitsU16(v: int) {
    0 <= v < TwoTo16
  }

  /** Range accepted by `struct` code `h` (signed short). */
  predicate FitsI16(v: int) {
    -0x8000 <= v < 0x8000
  }

  /** The signed value `struct` code `b` reads from one octet. */
  function ByteToI8(b: Byte): (v: int)
    ensures FitsI8(v)
    ensures (v - b) % 0x100 == 0
  {
    if b < 0x80 then b else b - 0x100
  }

  /** The octet `struct` code `b` writes for a signed value. */
  function I8ToByte(v: int): (b: Byte)
    requires FitsI8(v)
    ensures ByteToI8(b) == v
  {
    if v < 0 then v + 0x100 else v
  }

  /** The value `struct` code `!H` reads from two octets, high octet first. */
  function BEToU16(hi: Byte, lo: Byte): (v: int)
    ensures FitsU16(v)
    ensures v / 0x100 == hi && v % 0x100 == lo
  {
    hi * 0x100 + lo
  }

  /** The two octets `struct` code `!H` writes, high octet first. */
  function U16ToBE(v: int): (r: seq<Byte>)
    requires FitsU16(v)
    ensures |r| == 2
    ensures BEToU16(r[0], r[1]) == v
  {
    [v / 0x100, v % 0x100]
  }

  /** The value `struct` code `!h` reads: two's complement, high octet first. */
  function BEToI16(hi: Byte, lo: Byte): (v: int)
    ensures FitsI16(v)
    ensures (v - BEToU16(hi, lo)) % TwoTo16 == 0
  {
    var u := BEToU16(hi, lo);
    if u < 0x8000 then u else u - TwoTo16
  }

  /** The two octets `struct` code `!h` writes for a signed value. */
  function I16ToBE(v: int): (r: seq<Byte>)
    requires FitsI16(v)
    ensures |r| == 2
    ensures BEToI16(r[0], r[1]) == v
  {
    U16ToBE(if v < 0 then v + TwoTo16 else v)
  }

  /** Reading an octet as `b` and writing it back gives the octet. */
  lemma I8RoundTrip(b: Byte)
    ensures I8ToByte(ByteToI8(b)) == b
  {
  }

  /** Reading two octets as `!H` and writing them back gives the octets. */
  lemma U16RoundTrip(hi: Byte, lo: Byte)
    ensures U16ToBE(BEToU16(hi, lo)) == [hi, lo]
  {
  }

  /** Reading two octets as `!h` and writing them back gives the octets. */
  lemma I16RoundTrip(hi: Byte, lo: Byte)
    ensures I16ToBE(BEToI16(hi, lo)) == [hi, lo]
  {
  }

  /** `n` zero octets, as `struct` pad code `x` writes them. */
  function Zeros(n: nat): (r: seq<Byte>)
    ensures |r| == n
    ensures forall i :: 0 <= i < n ==> r[i] == 0
  {
    if n == 0 then [] else [0] + Zeros(n - 1)
  }
}
