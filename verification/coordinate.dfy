/** Longitude and latitude fields of an AVL record (`coordinate_formater`).

    The field is a 4-byte big-endian word; when bit 31 is set the source
    subtracts 2^32, i.e. it reads the word as 32-bit two's complement, and
    then divides by 10^7 to get degrees.  The model keeps the signed integer
    in units of 10^-7 degree and leaves the floating-point division out.
 */
module Coordinate {

  const Two31: int := 0x8000_0000
  const Two32: int := 0x1_0000_0000

  /** Bit 31 of a 32-bit word, the test `coordinate & (1 << 31)`. */
  predicate SignBit(u: nat)
  {
    (u / Two31) % 2 == 1
  }

  function Decode(u: nat): (r: int)
    requires u < Two32
    ensures -Two31 <= r < Two31
    ensures r % Two32 == u
    ensures r >= 0 <==> u < Two31
  {
    if SignBit(u) then u - Two32 else u
  }

  /** The 32-bit word a signed coordinate is carried in. */
  function Encode(x: int): (u: nat)
    requires -Two31 <= x < Two31
    ensures u < Two32
  {
    if x < 0 then x + Two32 else x
  }

  lemma DecodeOfEncode(x: int)
    requires -Two31 <= x < Two31
    ensures Decode(Encode(x)) == x
  {
  }

  lemma EncodeOfDecode(u: nat)
    requires u < Two32
    ensures Encode(Decode(u)) == u
  {
  }

  /** Distinct words decode to distinct coordinates. */
  lemma DecodeInjective(u: nat, v: nat)
    requires u < Two32 && v < Two32
    requires Decode(u) == Decode(v)
    ensures u == v
  {
    EncodeOfDecode(u);
    EncodeOfDecode(v);
  }

  /** 0.0 degrees, 214.7483647 degrees and -0.0000001 degrees. */
  lemma Samples()
    ensures Decode(0x0000_0000) == 0
    ensures Decode(0x7FFF_FFFF) == 2147483647
    ensures Decode(0xFFFF_FFFF) == -1
    ensures Decode(0x8000_0000) == -2147483648
  {
  }
}
