/** Fixed-width integers of C as numbers: casts, ranges and the zig-zag mapping. */
module Integers {
  import opened Bytes

  /** Widths of integer fields, in bytes. */
  predicate IsWidth(size: nat) {
    size == 1 || size == 2 || size == 4 || size == 8
  }

  /** 2^(8*size - 1). */
  function HalfRange(size: nat): (h: int)
    requires IsWidth(size)
    ensures 0 < h <= TWO_TO_THE_63
  {
    if size == 1 then 0x80 else if size == 2 then 0x8000 else if size == 4 then TWO_TO_THE_31 else TWO_TO_THE_63
  }

  /** A cast to an unsigned type of the given width. */
  function ToUnsigned(v: int, size: nat): (u: nat)
    requires IsWidth(size)
    ensures u < 2 * HalfRange(size)
  {
    v % (2 * HalfRange(size))
  }

  /** A cast to a signed type of the given width. */
  function ToSigned(v: int, size: nat): (s: int)
    requires IsWidth(size)
    ensures FitsSigned(s, size)
  {
    var u := ToUnsigned(v, size);
    if u < HalfRange(size) then u else u - 2 * HalfRange(size)
  }

  predicate FitsSigned(v: int, size: nat)
    requires IsWidth(size)
  {
    -HalfRange(size) <= v < HalfRange(size)
  }

  predicate FitsUnsigned(v: int, size: nat)
    requires IsWidth(size)
  {
    0 <= v < 2 * HalfRange(size)
  }

  /** The ranges of the integer types. */
  lemma WidthRanges(v: int)
    ensures forall n: nat :: IsWidth(n) <==> n in {1, 2, 4, 8}
    ensures FitsSigned(v, 1) <==> -128 <= v <= 127
    ensures FitsSigned(v, 2) <==> -32768 <= v <= 32767
    ensures FitsSigned(v, 4) <==> -2147483648 <= v <= 2147483647
    ensures FitsSigned(v, 8) <==> -9223372036854775808 <= v <= 9223372036854775807
    ensures FitsUnsigned(v, 1) <==> 0 <= v <= 255
    ensures FitsUnsigned(v, 2) <==> 0 <= v <= 65535
    ensures FitsUnsigned(v, 4) <==> 0 <= v <= 4294967295
    ensures FitsUnsigned(v, 8) <==> 0 <= v <= 18446744073709551615
  {
  }

  lemma CastsKeepFitting(v: int, size: nat)
    requires IsWidth(size)
    ensures FitsSigned(v, size) ==> ToSigned(v, size) == v
    ensures FitsUnsigned(v, size) ==> ToUnsigned(v, size) == v
    ensures ToSigned(v, size) == v <==> FitsSigned(v, size)
  {
  }

  /** pb_encode_svarint: ~((uint64_t)value << 1) for negative numbers. */
  function ZigZag(v: int): (u: nat)
    requires FitsSigned(v, 8)
    ensures u < TWO_TO_THE_64
  {
    if v < 0 then TWO_TO_THE_64 - 1 - ToUnsigned(v, 8) * 2 % TWO_TO_THE_64
    else ToUnsigned(v, 8) * 2 % TWO_TO_THE_64
  }

  /** pb_decode_svarint. */
  function UnZigZag(u: nat): (v: int)
    requires u < TWO_TO_THE_64
    ensures FitsSigned(v, 8)
  {
    if u % 2 == 1 then ToSigned(TWO_TO_THE_64 - 1 - u / 2, 8) else ToSigned(u / 2, 8)
  }

  /** Numbers of small magnitude map to small numbers: 0, -1, 1, -2, ... go to 0, 1, 2, 3, ... */
  lemma ZigZagOrder(v: int)
    requires FitsSigned(v, 8)
    ensures ZigZag(v) == if v < 0 then -2 * v - 1 else 2 * v
  {
    if v < 0 {
      assert ToUnsigned(v, 8) == v + TWO_TO_THE_64;
      assert ToUnsigned(v, 8) * 2 - TWO_TO_THE_64 == 2 * v + TWO_TO_THE_64;
    }
  }

  lemma SignedOfWrapped(v: int)
    requires FitsSigned(v, 8)
    ensures ToSigned(if v < 0 then TWO_TO_THE_64 + v else v, 8) == v
  {
  }

  lemma UnZigZagOfZigZag(v: int)
    requires FitsSigned(v, 8)
    ensures UnZigZag(ZigZag(v)) == v
  {
    hide ZigZag, ToSigned;
    ZigZagOrder(v);
    SignedOfWrapped(v);
    if v < 0 {
      assert ZigZag(v) == 2 * (-v - 1) + 1;
    }
  }

  lemma ZigZagOfUnZigZag(u: nat)
    requires u < TWO_TO_THE_64
    ensures ZigZag(UnZigZag(u)) == u
  {
    ZigZagOrder(UnZigZag(u));
    if u % 2 == 1 {
      assert UnZigZag(u) == -1 - u / 2;
    } else {
      assert UnZigZag(u) == u / 2;
    }
  }

  /** Zig-zag is a bijection between the signed and the unsigned 64-bit numbers. */
  lemma ZigZagBijection(v: int, u: nat)
    requires FitsSigned(v, 8) && u < TWO_TO_THE_64
    ensures UnZigZag(ZigZag(v)) == v
    ensures ZigZag(UnZigZag(u)) == u
  {
    hide ZigZag, UnZigZag;
    UnZigZagOfZigZag(v);
    ZigZagOfUnZigZag(u);
  }
}
