/** What the scalar decoders make of any number or byte string, whoever wrote it, and what other
    receivers make of what the encoder writes. */
module Scalars {
  import opened Bytes
  import opened Integers
  import opened Varint
  import opened Descriptor
  import opened Encoding
  import opened Decoding
  import opened Merging

  // ---- integers ----

  lemma Congruent32(n: int, u: nat)
    ensures (n - u) % TWO_TO_THE_32 == 0 <==> n % TWO_TO_THE_32 == u % TWO_TO_THE_32
  {
  }

  lemma Congruent64(n: int, u: nat)
    ensures (n - u) % TWO_TO_THE_64 == 0 <==> n % TWO_TO_THE_64 == u % TWO_TO_THE_64
  {
  }

  /** A cast to a signed type gives the one number in range with the same low bits. */
  lemma CastIsCongruent32(n: int, u: nat)
    ensures ToSigned(u, 4) == n <==> FitsSigned(n, 4) && (n - u) % TWO_TO_THE_32 == 0
  {
    Congruent32(n, u);
  }

  lemma CastIsCongruent64(n: int, u: nat)
    ensures ToSigned(u, 8) == n <==> FitsSigned(n, 8) && (n - u) % TWO_TO_THE_64 == 0
  {
    Congruent64(n, u);
  }

  /** An int field of 8 bytes takes every number; a narrower one takes the low 32 bits as a signed
      number, and only if it has room for that. */
  lemma SignedDecoded(f: Field, u: nat, n: int, t: bytes)
    requires f.ltype == Varint && IsWidth(f.dataSize) && u < TWO_TO_THE_64
    ensures DecScalar(f, EncVarint(u) + t) == Some((Num(n), t)) <==>
              FitsSigned(n, f.dataSize) && (n - u) % (if f.dataSize == 8 then TWO_TO_THE_64 else TWO_TO_THE_32) == 0
  {
    hide EncVarint, DecVarint, ToSigned;
    VarintRoundTrip(u, t);
    CastIsCongruent32(n, u);
    CastIsCongruent64(n, u);
  }

  /** Unsigned and zig-zag fields take exactly the numbers in their range. */
  lemma UnsignedDecoded(f: Field, u: nat, n: int, t: bytes)
    requires f.ltype == UVarint && IsWidth(f.dataSize) && u < TWO_TO_THE_64
    ensures DecScalar(f, EncVarint(u) + t) == Some((Num(n), t)) <==> n == u && FitsUnsigned(n, f.dataSize)
  {
    hide EncVarint, DecVarint;
    VarintRoundTrip(u, t);
  }

  lemma ZigZagDecoded(f: Field, u: nat, n: int, t: bytes)
    requires f.ltype == SVarint && IsWidth(f.dataSize) && u < TWO_TO_THE_64
    ensures DecScalar(f, EncVarint(u) + t) == Some((Num(n), t)) <==>
              FitsSigned(n, f.dataSize) && u == if n < 0 then -2 * n - 1 else 2 * n
  {
    hide EncVarint, DecVarint, ZigZag, UnZigZag;
    VarintRoundTrip(u, t);
    ZigZagOrder(UnZigZag(u));
    ZigZagBijection(UnZigZag(u), u);
    if FitsSigned(n, f.dataSize) {
      FitsWider(n, f.dataSize);
      ZigZagOrder(n);
      ZigZagBijection(n, u);
    }
  }

  /** Negative numbers are sign-extended: what a field of any width writes, a receiver with a
      64-bit field of the same kind reads as the same number. */
  lemma WiderFieldReads(f: Field, v: Value, t: bytes)
    requires f.ltype == Varint || f.ltype == UVarint || f.ltype == SVarint
    requires TypedValue(f, v)
    ensures EncScalar(f, v).Some?
    ensures DecScalar(f.(dataSize := 8), EncScalar(f, v).value + t) == Some((v, t))
  {
    hide EncVarint, DecScalar;
    if f.ltype != UVarint {
      FitsWider(v.n, f.dataSize);
    }
    IntegerRoundTrip(f.(dataSize := 8), v, t);
  }

  /** A narrow field also reads negative numbers that another sender wrote in 32 bits only. */
  lemma ShortNegativeAccepted(f: Field, v: Value, t: bytes)
    requires f.ltype == Varint && f.dataSize != 8 && TypedValue(f, v)
    ensures DecScalar(f, EncVarint(ToUnsigned(v.n, 4)) + t) == Some((v, t))
  {
    hide EncVarint, DecScalar;
    SignedDecoded(f, ToUnsigned(v.n, 4), v.n, t);
  }

  /** Every number but 0 is true. */
  lemma BoolDecoded(f: Field, run: bytes, t: bytes)
    requires f.ltype == Bool && IsRun(run) && GroupSum(run) < TWO_TO_THE_32
    ensures DecScalar(f, run + t) == Some((Num(if GroupSum(run) == 0 then 0 else 1), t))
  {
    RunDecodes32(run, t);
  }

  /** Fixed-width numbers are little-endian. */
  lemma FixedIsLittleEndian(f: Field, n: nat, i: nat)
    requires (f.ltype == Fixed32 && n < TWO_TO_THE_32 && i < 4) || (f.ltype == Fixed64 && n < TWO_TO_THE_64 && i < 8)
    ensures var e := EncScalar(f, Num(n));
            e.Some? && |e.value| == (if f.ltype == Fixed32 then 4 else 8) && e.value[i] == n / Pow256(i) % 256
  {
    hide LeBytes, Pow256;
    LeByteAt(n, if f.ltype == Fixed32 then 4 else 8, i);
  }

  // ---- byte strings ----

  /** Byte arrays need room for the four bytes of their size. */
  lemma BytesDecoded(f: Field, bs: bytes, t: bytes)
    requires FieldOk(f) && f.ltype == Bytes && |bs| < TWO_TO_THE_32
    ensures DecScalar(f, EncLength(|bs|) + bs + t) == if |bs| + 4 <= f.dataSize then Some((Raw(bs), t)) else None
  {
    hide EncLength, Dec32, Take;
    ChunkRoundTrip(bs, t);
  }

  /** Strings need room for a terminator, and end at the first zero in them. */
  lemma StringDecoded(f: Field, bs: bytes, t: bytes)
    requires FieldOk(f) && f.ltype == String && |bs| < TWO_TO_THE_32
    ensures DecScalar(f, EncLength(|bs|) + bs + t) == if |bs| < f.dataSize then Some((Raw(CString(bs)), t)) else None
  {
    hide EncLength, Dec32, Take, CString, WithTerminator;
    ChunkRoundTrip(bs, t);
    SizeOfString(|bs|);
  }

  lemma SizeOfString(n: nat)
    requires n < TWO_TO_THE_32
    ensures WithTerminator(n) == if n + 1 < TWO_TO_THE_32 then n + 1 else 0
  {
  }

  /** Fixed-length bytes have their length, or none at all and are zero. */
  lemma FixedBytesDecoded(f: Field, bs: bytes, t: bytes)
    requires FieldOk(f) && f.ltype == FixedLengthBytes && |bs| < TWO_TO_THE_32
    ensures DecScalar(f, EncLength(|bs|) + bs + t) ==
            if |bs| == f.dataSize then Some((Raw(bs), t))
            else if bs == [] then Some((Raw(Zeros(f.dataSize)), t))
            else None
  {
    hide EncLength, Dec32, Take;
    ChunkRoundTrip(bs, t);
    if bs == [] {
      assert bs + t == t;
    }
  }
}
