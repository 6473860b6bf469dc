/** util/coding.cc: LevelDB's 32-bit varints and length-prefixed slices. */
module Coding {
  import opened Bytes
  import opened Varint

  /** v | 128 in a byte. */
  function WithTopBit(v: nat): byte {
    v % 128 + 128
  }

  lemma VarintStep(v: nat)
    ensures EncVarint(v) == if v < 0x80 then [v] else [WithTopBit(v)] + EncVarint(v / 128)
  {
  }

  /** The bytes of a 32-bit varint, one branch for each length. */
  lemma VarintBytes(v: nat, v1: nat, v2: nat, v3: nat, v4: nat)
    requires v < TWO_TO_THE_32
    requires v1 == v / 0x80 && v2 == v / 0x4000 && v3 == v / 0x20_0000 && v4 == v / 0x1000_0000
    ensures v < 0x80 ==> EncVarint(v) == [v]
    ensures 0x80 <= v < 0x4000 ==> EncVarint(v) == [WithTopBit(v), v1]
    ensures 0x4000 <= v < 0x20_0000 ==> EncVarint(v) == [WithTopBit(v), WithTopBit(v1), v2]
    ensures 0x20_0000 <= v < 0x1000_0000 ==> EncVarint(v) == [WithTopBit(v), WithTopBit(v1), WithTopBit(v2), v3]
    ensures 0x1000_0000 <= v ==> EncVarint(v) == [WithTopBit(v), WithTopBit(v1), WithTopBit(v2), WithTopBit(v3), v4]
  {
    hide EncVarint, WithTopBit;
    assert v1 / 128 == v2 && v2 / 128 == v3 && v3 / 128 == v4;
    VarintStep(v);
    VarintStep(v1);
    VarintStep(v2);
    VarintStep(v3);
    VarintStep(v4);
  }

  /** EncodeVarint32 of util/coding.cc: writes at most five bytes at position at. */
  method EncodeVarint32(dst: array<byte>, at: nat, v: nat) returns (next: nat)
    requires v < TWO_TO_THE_32 && at + 5 <= dst.Length
    modifies dst
    ensures at < next <= at + 5
    ensures dst[at..next] == EncVarint(v)
    ensures dst[..at] == old(dst[..at]) && dst[next..] == old(dst[next..])
  {
    hide EncVarint, WithTopBit;
    var v1, v2, v3, v4 := v / 0x80, v / 0x4000, v / 0x20_0000, v / 0x1000_0000;
    VarintBytes(v, v1, v2, v3, v4);
    next := at;
    if v < 0x80 {
      dst[at] := v;
      return at + 1;
    }
    dst[at] := WithTopBit(v);
    if v < 0x4000 {
      dst[at + 1] := v1;
      return at + 2;
    }
    dst[at + 1] := WithTopBit(v1);
    if v < 0x20_0000 {
      dst[at + 2] := v2;
      return at + 3;
    }
    dst[at + 2] := WithTopBit(v2);
    if v < 0x1000_0000 {
      dst[at + 3] := v3;
      return at + 4;
    }
    dst[at + 3], dst[at + 4] := WithTopBit(v3), v4;
    return at + 5;
  }

  /** Copies bytes into a buffer. */
  method PutBytes(dst: array<byte>, at: nat, src: bytes)
    requires at + |src| <= dst.Length
    modifies dst
    ensures dst[..at + |src|] == old(dst[..at]) + src
    ensures dst[at + |src|..] == old(dst[at + |src|..])
  {
    forall i | 0 <= i < |src| {
      dst[at + i] := src[i];
    }
  }

  /** EncodeFixed64: eight little-endian bytes. */
  method EncodeFixed64(dst: array<byte>, at: nat, v: nat)
    requires v < TWO_TO_THE_64 && at + 8 <= dst.Length
    modifies dst
    ensures dst[..at + 8] == old(dst[..at]) + LeBytes(v, 8)
    ensures dst[at + 8..] == old(dst[at + 8..])
  {
    PutBytes(dst, at, LeBytes(v, 8));
  }

  /** The 32-bit varint at the start of s: at most five bytes, their group sum modulo 2^32. */
  function Varint32At(s: bytes): Option<(nat, bytes)> {
    match ReadRun(s, 5)
    case None => None
    case Some((run, rest)) => Some((GroupSum(run) % TWO_TO_THE_32, rest))
  }

  /** Every 32-bit value is read back, whatever follows. */
  lemma CodedVarint32RoundTrip(v: nat, t: bytes)
    requires v < TWO_TO_THE_32
    ensures Varint32At(EncVarint(v) + t) == Some((v, t))
  {
    hide EncVarint, GroupSum, ReadRun, Pow128, IsRun;
    EncIsRun(v);
    Pow128Values();
    EncodedLength(v, 5);
    SmallMod(v, TWO_TO_THE_32);
    ReadRunAccepts(EncVarint(v), t, 5);
  }

  /** Any run of at most five bytes is read, its group sum cut to 32 bits; a longer one is rejected. */
  lemma CodedRun(run: bytes, t: bytes)
    requires IsRun(run)
    ensures Varint32At(run + t) == if |run| <= 5 then Some((GroupSum(run) % 0x1_0000_0000, t)) else None
  {
    if |run| <= 5 {
      ReadRunAccepts(run, t, 5);
    } else {
      assert forall i :: 0 <= i < 5 ==> (run + t)[i] == run[i];
      ReadRunRejects(run + t, 5);
    }
  }

  /** GetVarint32PtrFallback: rest is what follows the pointer it returns; not ok is a null pointer. */
  method GetVarint32PtrFallback(s: bytes) returns (ok: bool, value: nat, rest: bytes)
    ensures ok == Varint32At(s).Some?
    ensures ok ==> Varint32At(s) == Some((value, rest))
  {
    hide Or, Pow2, GroupSum, ReadRun;
    var result: nat := 0;
    var shift, p := 0, 0;
    EmptySum();
    while shift <= 28 && p < |s|
      invariant 0 <= p <= 5 && p <= |s| && shift == 7 * p
      invariant forall i :: 0 <= i < p ==> s[i] >= 128
      invariant p <= 4 ==> result == GroupSum(s[..p])
    {
      var b := s[p];
      ReadRunSplit(s, p, 5);
      VarintGroup32(s[..p], b);
      assert s[..p] + [b] == s[..p + 1];
      result := Or(result, b % 128 * Pow2(shift) % TWO_TO_THE_32);
      if b < 128 {
        RunAtByte(s[p..], 5 - p);
        assert s[p..][1..] == s[p + 1..];
        return true, result, s[p + 1..];
      }
      p := p + 1;
      if p <= 4 {
        GroupSumSmall32(s[..p]);
      }
      shift := shift + 7;
    }
    ReadRunSplit(s, p, 5);
    if shift > 28 {
      NoRoom(s[p..]);
    } else {
      RunAtEnd(s[p..], 5 - p);
    }
    return false, 0, [];
  }

  lemma OneGroup(b: byte)
    ensures GroupSum([b]) == b % 128
  {
  }

  /** GetVarint32Ptr: one byte is read at once, longer varints in the loop. */
  method GetVarint32Ptr(s: bytes) returns (ok: bool, value: nat, rest: bytes)
    ensures ok == Varint32At(s).Some?
    ensures ok ==> Varint32At(s) == Some((value, rest))
  {
    hide ReadRun;
    if |s| > 0 {
      var result := s[0];
      if result < 128 {
        RunAtByte(s, 5);
        OneGroup(result);
        return true, result, s[1..];
      }
    }
    ok, value, rest := GetVarint32PtrFallback(s);
  }

  /** A length and that many bytes, and what follows them. */
  function LengthPrefixed(s: bytes): Option<(bytes, bytes)> {
    match Varint32At(s)
    case None => None
    case Some((n, rest)) => if |rest| < n then None else Some((rest[..n], rest[n..]))
  }

  /** GetLengthPrefixedSlice. */
  method GetLengthPrefixedSlice(s: bytes) returns (ok: bool, result: bytes, rest: bytes)
    ensures ok == LengthPrefixed(s).Some?
    ensures ok ==> LengthPrefixed(s) == Some((result, rest))
  {
    hide Varint32At;
    var n;
    ok, n, rest := GetVarint32Ptr(s);
    result := [];
    if !ok {
      return;
    }
    if n > |rest| {
      ok := false;
      return;
    }
    result, rest := rest[..n], rest[n..];
  }

  /** A slice behind its length is read back, whatever follows. */
  lemma LengthPrefixRoundTrip(slice: bytes, t: bytes)
    requires |slice| < TWO_TO_THE_32
    ensures LengthPrefixed(EncVarint(|slice|) + slice + t) == Some((slice, t))
  {
    hide Varint32At, EncVarint;
    var s := slice + t;
    CodedVarint32RoundTrip(|slice|, s);
    Prepended(EncVarint(|slice|), slice, t);
  }

  lemma Prepended(a: bytes, b: bytes, c: bytes)
    ensures a + b + c == a + (b + c) && (b + c)[..|b|] == b && (b + c)[|b|..] == c
  {
  }
}
