/** Base-128 varints: the byte strings pb_encode_varint writes and what the two decoders make
    of any byte string. */
module Varint {
  import opened Bytes

  /** The bytes pb_encode_varint writes for v. */
  function EncVarint(v: nat): (bs: bytes)
    ensures |bs| >= 1
  {
    if v < 128 then [v] else [v % 128 + 128] + EncVarint(v / 128)
  }

  /** One varint: every byte but the last has its top bit set. */
  predicate IsRun(bs: bytes) {
    && bs != []
    && bs[|bs| - 1] < 128
    && forall i :: 0 <= i < |bs| - 1 ==> bs[i] >= 128
  }

  /** The number whose 7-bit groups, least significant first, a run holds. */
  function GroupSum(bs: bytes): nat {
    if bs == [] then 0 else bs[0] % 128 + 128 * GroupSum(bs[1..])
  }

  /** Splits off the varint at the start of s, if it ends within max bytes. */
  function ReadRun(s: bytes, max: nat): (r: Option<(bytes, bytes)>)
    ensures r.Some? ==> IsRun(r.value.0) && |r.value.0| <= max && s == r.value.0 + r.value.1
  {
    if max == 0 || s == [] then None
    else if s[0] < 128 then
      assert s == [s[0]] + s[1..];
      Some(([s[0]], s[1..]))
    else
      match ReadRun(s[1..], max - 1)
      case None => None
      case Some((run, rest)) => Some(([s[0]] + run, rest))
  }

  /** pb_decode_varint: the value is the group sum modulo 2^64; longer runs are an overflow. */
  function DecVarint(s: bytes): (r: Option<(nat, bytes)>)
    ensures r.Some? ==> r.value.0 < TWO_TO_THE_64 && |r.value.1| < |s|
  {
    match ReadRun(s, 10)
    case None => None
    case Some((run, rest)) => Some((GroupSum(run) % TWO_TO_THE_64, rest))
  }

  /** A run of at most max bytes is read whole, whatever follows it. */
  lemma {:induction false} ReadRunAccepts(run: bytes, t: bytes, max: nat)
    requires IsRun(run) && |run| <= max
    ensures ReadRun(run + t, max) == Some((run, t))
  {
    if |run| == 1 {
      assert (run + t)[1..] == t;
    } else {
      assert (run + t)[1..] == run[1..] + t;
      ReadRunAccepts(run[1..], t, max - 1);
      assert [run[0]] + run[1..] == run;
    }
  }

  /** Any run of at most ten bytes, minimal or not, decodes to its group sum modulo 2^64, and what
      follows is left. */
  lemma RunDecodes(run: bytes, t: bytes)
    requires IsRun(run) && |run| <= 10
    ensures DecVarint(run + t) == Some((GroupSum(run) % TWO_TO_THE_64, t))
  {
    ReadRunAccepts(run, t, 10);
  }

  /** No varint ends within max bytes when all of them have their top bit set. */
  lemma {:induction false} ReadRunRejects(s: bytes, max: nat)
    requires |s| >= max && forall i :: 0 <= i < max ==> s[i] >= 128
    ensures ReadRun(s, max).None?
  {
    if max > 0 {
      ReadRunRejects(s[1..], max - 1);
    }
  }

  lemma {:induction false} EncIsRun(v: nat)
    ensures IsRun(EncVarint(v)) && GroupSum(EncVarint(v)) == v
  {
    if v >= 128 {
      EncIsRun(v / 128);
      assert EncVarint(v)[1..] == EncVarint(v / 128);
      var bs, tail := EncVarint(v), EncVarint(v / 128);
      forall i | 0 <= i < |bs| - 1
        ensures bs[i] >= 128
      {
        if i > 0 {
          assert bs[i] == tail[i - 1];
        }
      }
    }
  }

  function Pow128(n: nat): (p: nat)
    ensures p > 0
  {
    if n == 0 then 1 else 128 * Pow128(n - 1)
  }

  lemma {:induction false} GroupSumBound(bs: bytes)
    ensures GroupSum(bs) < Pow128(|bs|)
  {
    if bs != [] {
      GroupSumBound(bs[1..]);
    }
  }

  /** The encoding fits n bytes exactly when the value fits n groups of seven bits. */
  lemma {:induction false} EncodedLength(v: nat, n: nat)
    requires n > 0
    ensures |EncVarint(v)| <= n <==> v < Pow128(n)
    decreases n
  {
    if n == 1 {
      assert Pow128(1) == 128;
    } else if v >= 128 {
      EncodedLength(v / 128, n - 1);
    } else {
      Pow128Monotone(1, n);
      assert Pow128(1) == 128;
    }
  }

  lemma {:induction false} Pow128Monotone(m: nat, n: nat)
    requires m <= n
    ensures Pow128(m) <= Pow128(n)
  {
    if m < n {
      Pow128Monotone(m, n - 1);
    }
  }

  /** No run for the same value is shorter than the encoding. */
  lemma EncIsMinimal(v: nat, run: bytes)
    requires IsRun(run) && GroupSum(run) == v
    ensures |EncVarint(v)| <= |run|
  {
    GroupSumBound(run);
    EncodedLength(v, |run|);
  }

  lemma Pow128Values()
    ensures Pow128(1) == 0x80 && Pow128(2) == 0x4000 && Pow128(3) == 0x20_0000
    ensures Pow128(4) == 0x1000_0000 && Pow128(5) == 0x8_0000_0000
    ensures Pow128(9) == TWO_TO_THE_63 && Pow128(10) == 128 * TWO_TO_THE_63
  {
    assert Pow128(1) == 128 * Pow128(0);
    assert Pow128(2) == 128 * Pow128(1);
    assert Pow128(3) == 128 * Pow128(2);
    assert Pow128(4) == 128 * Pow128(3);
    assert Pow128(5) == 128 * Pow128(4);
    assert Pow128(6) == 128 * Pow128(5);
    assert Pow128(7) == 128 * Pow128(6);
    assert Pow128(8) == 128 * Pow128(7);
    assert Pow128(9) == 128 * Pow128(8);
  }

  /** Every 64-bit value takes between 1 and 10 bytes and is read back, consuming exactly
      its own bytes whatever follows. */
  lemma VarintRoundTrip(v: nat, t: bytes)
    requires v < TWO_TO_THE_64
    ensures |EncVarint(v)| <= 10
    ensures DecVarint(EncVarint(v) + t) == Some((v, t))
  {
    hide EncVarint, GroupSum, ReadRun, Pow128, IsRun;
    EncIsRun(v);
    Pow128Values();
    EncodedLength(v, 10);
    SmallMod(v, TWO_TO_THE_64);
    ReadRunAccepts(EncVarint(v), t, 10);
  }

  // ---- the 32-bit decoder ----

  /** Bitwise or. */
  function Or(a: nat, b: nat): nat {
    if a == 0 then b else if b == 0 then a
    else (if a % 2 == 1 || b % 2 == 1 then 1 else 0) + 2 * Or(a / 2, b / 2)
  }

  function Pow2(n: nat): (p: nat)
    ensures p > 0
  {
    if n == 0 then 1 else 2 * Pow2(n - 1)
  }

  /** Numbers without a common bit: or is addition. */
  lemma {:induction false} OrOfDisjoint(a: nat, k: nat, b: nat)
    requires a < Pow2(k)
    ensures Or(a, b * Pow2(k)) == a + b * Pow2(k)
  {
    if k > 0 && a > 0 && b > 0 {
      var m := b * Pow2(k - 1);
      assert b * Pow2(k) == 2 * m;
      OrOfDisjoint(a / 2, k - 1, b);
      assert Or(a, 2 * m) == a % 2 + 2 * Or(a / 2, m);
    }
  }

  lemma {:induction false} OrBound(a: nat, b: nat, k: nat)
    requires a < Pow2(k) && b < Pow2(k)
    ensures Or(a, b) < Pow2(k)
  {
    if a != 0 && b != 0 {
      OrBound(a / 2, b / 2, k - 1);
    }
  }

  /** The loop of pb_decode_varint32_eof once the first byte had its top bit set: bits so far
      in result, the next group belongs at bitpos. The position is an 8-bit counter. */
  function Dec32Loop(s: bytes, bitpos: nat, result: nat): (r: Option<(nat, bytes)>)
    requires bitpos < 256
    ensures r.Some? ==> |r.value.1| < |s|
    decreases |s|
  {
    if s == [] then None
    else
      var b := s[0];
      var signExtension := if bitpos < 63 then 0xFF else 0x01;
      if bitpos >= 32 && b % 128 != 0 && (result < TWO_TO_THE_31 || b != signExtension) then None
      else
        var result' := if bitpos >= 32 then result
                       else Or(result, (b % 128) * Pow2(bitpos) % TWO_TO_THE_32);
        var bitpos' := (bitpos + 7) % 256;
        if b >= 128 then Dec32Loop(s[1..], bitpos', result')
        else if bitpos' == 35 && (b / 16) % 8 != 0 then None
        else Some((result', s[1..]))
  }

  /** pb_decode_varint32. */
  function Dec32(s: bytes): (r: Option<(nat, bytes)>)
    ensures r.Some? ==> |r.value.1| < |s|
  {
    if s == [] then None
    else if s[0] < 128 then Some((s[0], s[1..]))
    else Dec32Loop(s[1..], 7, s[0] % 128)
  }

  lemma Pow2Values()
    ensures Pow2(0) == 1 && Pow2(7) == 0x80 && Pow2(14) == 0x4000 && Pow2(21) == 0x20_0000
    ensures Pow2(28) == 0x1000_0000 && Pow2(32) == TWO_TO_THE_32
  {
    Pow2Step(0);
    Pow2Step(7);
    Pow2Step(14);
    Pow2Step(21);
    assert Pow2(32) == 16 * Pow2(28) by {
      assert Pow2(29) == 2 * Pow2(28);
      assert Pow2(30) == 2 * Pow2(29);
      assert Pow2(31) == 2 * Pow2(30);
    }
  }

  lemma Pow2Step(n: nat)
    ensures Pow2(n + 7) == 128 * Pow2(n)
  {
    assert Pow2(n + 2) == 4 * Pow2(n);
    assert Pow2(n + 4) == 4 * Pow2(n + 2);
    assert Pow2(n + 6) == 4 * Pow2(n + 4);
  }

  lemma GroupArithmetic(w: nat, p: nat)
    requires p == 0x80 || p == 0x4000 || p == 0x20_0000 || p == 0x1000_0000
    requires w * p < TWO_TO_THE_32
    ensures w % 128 * p < TWO_TO_THE_32
    ensures w * p == w % 128 * p + w / 128 * (128 * p)
    ensures w % 128 * p < 128 * p - p + 1
    ensures p == 0x1000_0000 ==> w < 16
  {
    if p == 0x80 {
    } else if p == 0x4000 {
    } else if p == 0x20_0000 {
    } else {
    }
  }

  /** A group that fits below bit 32 is added in. */
  lemma OrGroup(bitpos: nat, p: nat, result: nat, g: nat)
    requires p == Pow2(bitpos) && result < p && g * p < TWO_TO_THE_32
    ensures Or(result, g * Pow2(bitpos) % TWO_TO_THE_32) == result + g * p
  {
    hide Or, Pow2;
    OrOfDisjoint(result, bitpos, g);
    SmallMod(g * p, TWO_TO_THE_32);
  }

  lemma SmallMod(x: nat, m: nat)
    requires x < m
    ensures x % m == x
  {
  }

  /** One round of the loop below bit 32. */
  lemma Dec32Round(s: bytes, bitpos: nat, result: nat, result': nat)
    requires bitpos < 32 && s != [] && result' == Or(result, s[0] % 128 * Pow2(bitpos) % TWO_TO_THE_32)
    ensures Dec32Loop(s, bitpos, result) ==
            if s[0] >= 128 then Dec32Loop(s[1..], bitpos + 7, result')
            else if bitpos == 28 && s[0] >= 16 then None
            else Some((result', s[1..]))
  {
    hide Or, Pow2;
    assert s[0] < 128 ==> (s[0] / 16 % 8 != 0 <==> s[0] >= 16);
  }

  /** It adds its group in. */
  lemma Dec32Step(s: bytes, k: nat, p: nat, result: nat)
    requires 1 <= k <= 4 && p == Pow2(7 * k) && s != [] && result < p
    requires s[0] % 128 * p < TWO_TO_THE_32
    ensures Dec32Loop(s, 7 * k, result) ==
            if s[0] >= 128 then Dec32Loop(s[1..], 7 * k + 7, result + s[0] % 128 * p)
            else if k == 4 && s[0] >= 16 then None
            else Some((result + s[0] % 128 * p, s[1..]))
  {
    hide Or, Pow2, Dec32Loop;
    OrGroup(7 * k, p, result, s[0] % 128);
    Dec32Round(s, 7 * k, result, result + s[0] % 128 * p);
  }

  /** The groups of a value that still fit below bit 32 are added in at their position. */
  lemma {:induction false} Dec32LoopValue(w: nat, k: nat, result: nat, t: bytes)
    requires 1 <= k <= 4 && result < Pow2(7 * k) && w > 0
    requires w * Pow2(7 * k) < TWO_TO_THE_32
    ensures Dec32Loop(EncVarint(w) + t, 7 * k, result) == Some((result + w * Pow2(7 * k), t))
    decreases 4 - k
  {
    hide Dec32Loop, Pow2;
    Pow2Values();
    Pow2Step(7 * k);
    var s, p := EncVarint(w) + t, Pow2(7 * k);
    GroupArithmetic(w, p);
    Dec32Step(s, k, p, result);
    if w < 128 {
      assert s[1..] == t;
    } else {
      assert s[1..] == EncVarint(w / 128) + t;
      Dec32LoopValue(w / 128, k + 1, result + w % 128 * p, t);
    }
  }

  /** Every canonical 32-bit value is read back, whatever follows. */
  lemma Varint32RoundTrip(v: nat, t: bytes)
    requires v < TWO_TO_THE_32
    ensures Dec32(EncVarint(v) + t) == Some((v, t))
  {
    hide Dec32Loop, Pow2;
    Pow2Values();
    var s := EncVarint(v) + t;
    if v < 128 {
      assert s[1..] == t;
    } else {
      assert s[1..] == EncVarint(v / 128) + t;
      Dec32LoopValue(v / 128, 1, v % 128, t);
    }
  }

  lemma SkipOnes(s: bytes, bitpos: nat, result: nat)
    requires 32 <= bitpos < 63 && result >= TWO_TO_THE_31 && s != [] && s[0] == 0xFF
    ensures Dec32Loop(s, bitpos, result) == Dec32Loop(s[1..], bitpos + 7, result)
  {
  }

  lemma SkipLastOne(s: bytes, result: nat)
    requires TWO_TO_THE_31 <= result < TWO_TO_THE_32 && s != [] && s[0] == 1
    ensures Dec32Loop(s, 63, result) == Some((result, s[1..]))
  {
  }

  lemma SignExtensionBytes()
    ensures EncVarint(0x1FFF_FFFF) == [0xFF, 0xFF, 0xFF, 0xFF, 1]
  {
    assert EncVarint(1) == [1];
    assert EncVarint(0xFF) == [0xFF, 1];
    assert EncVarint(0x7FFF) == [0xFF, 0xFF, 1];
    assert EncVarint(0x3F_FFFF) == [0xFF, 0xFF, 0xFF, 1];
  }

  lemma OrZero(a: nat)
    ensures Or(a, 0) == a
  {
  }

  /** Zero groups behind a number are read over, however many there are. */
  lemma {:induction false} ZeroGroups(run: bytes, bitpos: nat, result: nat, t: bytes)
    requires IsRun(run) && GroupSum(run) == 0 && bitpos < 256
    ensures Dec32Loop(run + t, bitpos, result) == Some((result, t))
    decreases run
  {
    var s := run + t;
    assert s[0] == run[0] && run[0] % 128 == 0 && GroupSum(run[1..]) == 0;
    assert 0 * Pow2(bitpos) % TWO_TO_THE_32 == 0;
    OrZero(result);
    assert s[1..] == run[1..] + t;
    if |run| > 1 {
      ZeroGroups(run[1..], (bitpos + 7) % 256, result, t);
    }
  }

  lemma LowGroupOf(x: nat, g: nat)
    requires x < 128
    ensures (x + 128 * g) % 128 == x && (x + 128 * g) / 128 == g
  {
  }

  lemma GroupSumStep(run: bytes)
    requires run != []
    ensures GroupSum(run) == run[0] % 128 + 128 * GroupSum(run[1..])
    ensures |run| == 1 ==> GroupSum(run[1..]) == 0
  {
    assert |run| == 1 ==> run[1..] == [];
  }

  lemma FirstOfGroups(run: bytes)
    requires run != []
    ensures GroupSum(run) % 128 == run[0] % 128 && GroupSum(run) / 128 == GroupSum(run[1..])
    ensures |run| == 1 ==> GroupSum(run[1..]) == 0
  {
    hide GroupSum;
    GroupSumStep(run);
    LowGroupOf(run[0] % 128, GroupSum(run[1..]));
  }

  lemma FirstOfRun(run: bytes, t: bytes)
    requires IsRun(run)
    ensures (run + t)[0] == run[0] && (run + t)[1..] == run[1..] + t
    ensures |run| == 1 ==> run[0] < 128 && (run + t)[1..] == t
    ensures |run| > 1 ==> run[0] >= 128 && IsRun(run[1..])
  {
  }

  /** The groups of a run that stay below bit 32 are added in, and zero groups may follow. */
  lemma {:induction false} Dec32LoopRun(run: bytes, k: nat, p: nat, result: nat, t: bytes)
    requires IsRun(run) && 1 <= k <= 4 && p == Pow2(7 * k) && result < p
    requires GroupSum(run) * p < TWO_TO_THE_32
    ensures Dec32Loop(run + t, 7 * k, result) == Some((result + GroupSum(run) * p, t))
    decreases 4 - k
  {
    hide Dec32Loop, Pow2, Or, GroupSum;
    Pow2Values();
    Pow2Step(7 * k);
    FirstOfGroups(run);
    FirstOfRun(run, t);
    var s, w := run + t, GroupSum(run);
    GroupArithmetic(w, p);
    Dec32Step(s, k, p, result);
    if |run| == 1 {
    } else if k < 4 {
      Dec32LoopRun(run[1..], k + 1, 128 * p, result + run[0] % 128 * p, t);
    } else {
      ZeroGroups(run[1..], 35, result + run[0] % 128 * p, t);
    }
  }

  /** Any run of any length whose group sum is below 2^32, minimal or not, is read as that number. */
  lemma RunDecodes32(run: bytes, t: bytes)
    requires IsRun(run) && GroupSum(run) < TWO_TO_THE_32
    ensures Dec32(run + t) == Some((GroupSum(run), t))
  {
    hide Dec32Loop, Pow2;
    Pow2Values();
    var s := run + t;
    assert s[0] == run[0] && s[1..] == run[1..] + t;
    assert GroupSum(run) == run[0] % 128 + 128 * GroupSum(run[1..]);
    if |run| == 1 {
      assert run[1..] == [] && s[1..] == t;
    } else {
      Dec32LoopRun(run[1..], 1, 0x80, run[0] % 128, t);
    }
  }

  /** Above bit 32 a sign extension is passed over. */
  lemma SignExtensionSkipped(result: nat, t: bytes)
    requires TWO_TO_THE_31 <= result < TWO_TO_THE_32
    ensures Dec32Loop(EncVarint(0x1FFF_FFFF) + t, 35, result) == Some((result, t))
  {
    hide EncVarint, Dec32Loop;
    SignExtensionBytes();
    var s0 := EncVarint(0x1FFF_FFFF) + t;
    var s1, s2, s3, s4 := s0[1..], s0[2..], s0[3..], s0[4..];
    assert s1[1..] == s2 && s2[1..] == s3 && s3[1..] == s4 && s4[1..] == t;
    SkipOnes(s0, 35, result);
    SkipOnes(s1, 42, result);
    SkipOnes(s2, 49, result);
    SkipOnes(s3, 56, result);
    SkipLastOne(s4, result);
  }

  /** The round at bit 28 keeps the four bits that fit when the varint goes on. */
  lemma Dec32StepTop(s: bytes, result: nat, c: nat)
    requires c < 16 && s != [] && s[0] == 0xF0 + c && result < 0x1000_0000
    ensures Dec32Loop(s, 28, result) == Dec32Loop(s[1..], 35, result + c * 0x1000_0000)
  {
    hide Or, Pow2, Dec32Loop;
    Pow2Values();
    OrGroup(28, 0x1000_0000, result, c);
    assert s[0] % 128 == 0x70 + c;
    assert (0x70 + c) * 0x1000_0000 % TWO_TO_THE_32 == c * 0x1000_0000;
    Dec32Round(s, 28, result, result + c * 0x1000_0000);
  }

  lemma EncDigit(b: nat, w: nat)
    requires b < 128 && w > 0
    ensures EncVarint(b + 128 * w) == [b + 128] + EncVarint(w)
  {
    assert (b + 128 * w) / 128 == w && (b + 128 * w) % 128 == b;
  }

  /** A varint with a further group in front. */
  lemma NextGroup(b: nat, w: nat, t: bytes)
    requires b < 128 && w > 0
    ensures var s := EncVarint(b + 128 * w) + t;
            s[0] == b + 128 && s[1..] == EncVarint(w) + t
  {
    hide EncVarint;
    EncDigit(b, w);
  }

  /** The loop on the last nine groups of a sign-extended negative number, c its top four bits. */
  lemma Dec32LoopNegative(b0: nat, b1: nat, b2: nat, b3: nat, c: nat, t: bytes)
    requires b0 < 128 && b1 < 128 && b2 < 128 && b3 < 128 && 8 <= c < 16
    ensures var w := b1 + 128 * (b2 + 128 * (b3 + 128 * (0x70 + c + 128 * 0x1FFF_FFFF)));
            Dec32Loop(EncVarint(w) + t, 7, b0) ==
            Some((b0 + b1 * 0x80 + b2 * 0x4000 + b3 * 0x20_0000 + c * 0x1000_0000, t))
  {
    hide Dec32Loop, Pow2, EncVarint;
    Pow2Values();
    var w5 := 0x1FFF_FFFF;
    var w4 := 0x70 + c + 128 * w5;
    var w3 := b3 + 128 * w4;
    var w2 := b2 + 128 * w3;
    NextGroup(0x70 + c, w5, t);
    NextGroup(b3, w4, t);
    NextGroup(b2, w3, t);
    NextGroup(b1, w2, t);
    var r2 := b0 + b1 * 0x80;
    var r3 := r2 + b2 * 0x4000;
    var r4 := r3 + b3 * 0x20_0000;
    assert r2 < 0x4000 && r3 < 0x20_0000 && r4 < 0x1000_0000;
    Dec32Step(EncVarint(b1 + 128 * w2) + t, 1, 0x80, b0);
    Dec32Step(EncVarint(w2) + t, 2, 0x4000, r2);
    Dec32Step(EncVarint(w3) + t, 3, 0x20_0000, r3);
    Dec32StepTop(EncVarint(w4) + t, r4, c);
    SignExtensionSkipped(r4 + c * 0x1000_0000, t);
  }

  /** The groups of a sign-extended negative int32. */
  lemma NegativeGroups(v: nat) returns (b0: nat, b1: nat, b2: nat, b3: nat, c: nat)
    requires TWO_TO_THE_64 - TWO_TO_THE_31 <= v < TWO_TO_THE_64
    ensures b0 < 128 && b1 < 128 && b2 < 128 && b3 < 128 && 8 <= c < 16
    ensures v == b0 + 128 * (b1 + 128 * (b2 + 128 * (b3 + 128 * (0x70 + c + 128 * 0x1FFF_FFFF))))
    ensures v % TWO_TO_THE_32 == b0 + b1 * 0x80 + b2 * 0x4000 + b3 * 0x20_0000 + c * 0x1000_0000
  {
    var low := v - (TWO_TO_THE_64 - TWO_TO_THE_32);
    assert v % TWO_TO_THE_32 == low;
    var q1 := low / 128;
    var q2 := q1 / 128;
    var q3 := q2 / 128;
    b0, b1, b2, b3, c := low % 128, q1 % 128, q2 % 128, q3 % 128, q3 / 128;
    assert low == b0 + 128 * q1 && q1 == b1 + 128 * q2 && q2 == b2 + 128 * q3 && q3 == b3 + 128 * c;
  }

  /** A sign-extended negative int32 reads as its low 32 bits. */
  lemma NegativeVarint32(v: nat, t: bytes)
    requires TWO_TO_THE_64 - TWO_TO_THE_31 <= v < TWO_TO_THE_64
    ensures Dec32(EncVarint(v) + t) == Some((v % TWO_TO_THE_32, t))
  {
    hide Dec32Loop, EncVarint;
    var b0, b1, b2, b3, c := NegativeGroups(v);
    var w := b1 + 128 * (b2 + 128 * (b3 + 128 * (0x70 + c + 128 * 0x1FFF_FFFF)));
    EncDigit(b0, w);
    assert (EncVarint(v) + t)[1..] == EncVarint(w) + t;
    Dec32LoopNegative(b0, b1, b2, b3, c, t);
  }

  // ---- numbers too long for the 32-bit decoder ----

  /** One round of the loop above bit 32, on a byte that is no sign extension. */
  lemma HighRound(s: bytes, bitpos: nat, result: nat)
    requires 32 < bitpos < 63 && s != []
    ensures s[0] % 128 != 0 && s[0] != 0xFF ==> Dec32Loop(s, bitpos, result).None?
    ensures s[0] >= 128 && Dec32Loop(s, bitpos, result).Some? ==>
              Dec32Loop(s, bitpos, result) == Dec32Loop(s[1..], bitpos + 7, result)
  {
  }

  lemma FirstGroup(w: nat, t: bytes)
    requires w > 0
    ensures var s := EncVarint(w) + t;
            if w < 128 then s[0] == w && s[1..] == t
            else s[0] == w % 128 + 128 && s[1..] == EncVarint(w / 128) + t
  {
  }

  /** The last group of a number that ends between bits 35 and 62 is no sign extension. */
  lemma {:induction false} HighGroupsRejected(w: nat, k: nat, result: nat, t: bytes)
    requires 5 <= k <= 8 && 0 < w < Pow128(9 - k)
    ensures Dec32Loop(EncVarint(w) + t, 7 * k, result).None?
    decreases w
  {
    hide EncVarint, Dec32Loop, Pow128;
    FirstGroup(w, t);
    HighRound(EncVarint(w) + t, 7 * k, result);
    Pow128Step(9 - k);
    if w >= 128 {
      HighGroupsRejected(w / 128, k + 1, result, t);
    }
  }

  lemma Pow128Step(n: nat)
    requires n > 0
    ensures Pow128(n) == 128 * Pow128(n - 1) && Pow128(0) == 1
  {
  }

  /** The groups below bit 32 of a number that needs more are read, and what follows is rejected. */
  lemma {:induction false} LongGroupsRejected(w: nat, k: nat, result: nat, t: bytes)
    requires 1 <= k <= 4 && 0x1_0000_0000 / Pow128(k) <= w < Pow128(9 - k)
    ensures Dec32Loop(EncVarint(w) + t, 7 * k, result).None?
    decreases 4 - k
  {
    hide EncVarint, Dec32Loop, Or, Pow2, Pow128;
    Pow128Values();
    Pow128Step(9 - k);
    FirstGroup(w, t);
    var s := EncVarint(w) + t;
    var result' := Or(result, s[0] % 128 * Pow2(7 * k) % TWO_TO_THE_32);
    Dec32Round(s, 7 * k, result, result');
    if w >= 128 {
      if k < 4 {
        LongGroupsRejected(w / 128, k + 1, result', t);
      } else {
        HighGroupsRejected(w / 128, 5, result', t);
      }
    }
  }

  /** A length of 2^32 or more, as far as memory can hold one, is no 32-bit varint. */
  lemma LongVarint32Rejected(v: nat, t: bytes)
    requires TWO_TO_THE_32 <= v < TWO_TO_THE_63
    ensures Dec32(EncVarint(v) + t).None?
  {
    hide EncVarint, Dec32Loop, Pow128;
    Pow128Values();
    Pow128Step(9);
    FirstGroup(v, t);
    LongGroupsRejected(v / 128, 1, v % 128, t);
  }

  // ---- reading a varint byte by byte ----

  lemma {:induction false} Pow2OfGroups(k: nat)
    ensures Pow2(7 * k) == Pow128(k)
  {
    if k > 0 {
      Pow2OfGroups(k - 1);
      Pow2Step(7 * (k - 1));
    }
  }

  /** A run behind bytes that were already read. */
  function Behind(bs: bytes, r: Option<(bytes, bytes)>): Option<(bytes, bytes)> {
    match r
    case None => None
    case Some((run, rest)) => Some((bs + run, rest))
  }

  lemma ReadRunStep(s: bytes, max: nat)
    requires s != [] && s[0] >= 128 && max > 0
    ensures ReadRun(s, max) == Behind([s[0]], ReadRun(s[1..], max - 1))
  {
  }

  lemma BehindBoth(a: bytes, b: bytes, r: Option<(bytes, bytes)>)
    ensures Behind(a, Behind(b, r)) == Behind(a + b, r)
    ensures Behind([], r) == r
  {
    if r.Some? {
      assert a + (b + r.value.0) == a + b + r.value.0;
      assert [] + r.value.0 == r.value.0;
    }
  }

  /** A varint whose first bytes all have their top bit set continues behind them. */
  lemma {:induction false} ReadRunSplit(s: bytes, k: nat, max: nat)
    requires k <= max && k <= |s| && forall i :: 0 <= i < k ==> s[i] >= 128
    ensures ReadRun(s, max) == Behind(s[..k], ReadRun(s[k..], max - k))
  {
    hide ReadRun, Behind;
    var r := ReadRun(s[k..], max - k);
    if k == 0 {
      assert s[0..] == s && s[..0] == [];
      BehindBoth([], [], r);
    } else {
      ReadRunStep(s, max);
      ReadRunSplit(s[1..], k - 1, max - 1);
      assert s[1..][k - 1..] == s[k..] && [s[0]] + s[1..][..k - 1] == s[..k];
      BehindBoth([s[0]], s[1..][..k - 1], r);
    }
  }

  lemma {:induction false} GroupSumAppend(r: bytes, b: byte)
    ensures GroupSum(r + [b]) == GroupSum(r) + b % 128 * Pow128(|r|)
  {
    if r != [] {
      assert (r + [b])[1..] == r[1..] + [b];
      GroupSumAppend(r[1..], b);
      var x, p := b % 128, Pow128(|r| - 1);
      assert 128 * (x * p) == x * (128 * p);
    } else {
      assert [] + [b] == [b];
      assert [b][1..] == [];
    }
  }

  /** A group that lies below bit 63. */
  lemma LowGroup(g: nat, x: nat, p: nat)
    requires x < 128 && g < p <= TWO_TO_THE_63 / 128
    ensures x * p < TWO_TO_THE_64 && g + x * p < TWO_TO_THE_64
  {
    MulMonotone(x, 127, p);
  }

  lemma MulMonotone(x: nat, y: nat, p: nat)
    requires x <= y
    ensures x * p <= y * p
  {
    assert (y - x) * p >= 0;
  }

  /** The group at bit 63, of which only the lowest bit fits. */
  lemma TopGroup(g: nat, x: nat)
    requires x < 128 && g < TWO_TO_THE_63
    ensures x * TWO_TO_THE_63 % TWO_TO_THE_64 == x % 2 * TWO_TO_THE_63
    ensures (g + x * TWO_TO_THE_63) % TWO_TO_THE_64 == g + x % 2 * TWO_TO_THE_63
  {
    var low, q := x % 2, x / 2;
    assert x == 2 * q + low;
    assert x * TWO_TO_THE_63 == q * TWO_TO_THE_64 + low * TWO_TO_THE_63;
  }

  /** One round of a 64-bit decoder: the group, shifted and cut to 64 bits, is or-ed in. */
  lemma VarintGroup(r: bytes, b: byte)
    requires |r| <= 9
    ensures Or(GroupSum(r), b % 128 * Pow2(7 * |r|) % TWO_TO_THE_64) == GroupSum(r + [b]) % TWO_TO_THE_64
  {
    hide Or, Pow2, Pow128, GroupSum;
    var k, p, g, x := |r|, Pow128(|r|), GroupSum(r), b % 128;
    Pow2OfGroups(k);
    GroupSumBound(r);
    GroupSumAppend(r, b);
    Pow128Values();
    if k <= 8 {
      Pow128Monotone(k, 8);
      Pow128Eight();
      LowGroup(g, x, p);
      SmallMod(x * p, TWO_TO_THE_64);
      SmallMod(g + x * p, TWO_TO_THE_64);
      OrOfDisjoint(g, 7 * k, x);
    } else {
      TopGroup(g, x);
      OrOfDisjoint(g, 63, x % 2);
    }
  }

  lemma Pow128Eight()
    ensures Pow128(8) == TWO_TO_THE_63 / 128
  {
    Pow128Values();
    assert Pow128(9) == 128 * Pow128(8);
  }

  lemma EmptySum()
    ensures GroupSum([]) == 0
  {
  }

  lemma GroupSumSmall(r: bytes)
    requires |r| <= 9
    ensures GroupSum(r) % TWO_TO_THE_64 == GroupSum(r)
  {
    GroupSumBound(r);
    Pow128Monotone(|r|, 9);
    Pow128Values();
    SmallMod(GroupSum(r), TWO_TO_THE_64);
  }

  lemma NoRoom(s: bytes)
    ensures ReadRun(s, 0).None?
  {
  }

  lemma RunAtEnd(s: bytes, max: nat)
    requires s == []
    ensures ReadRun(s, max).None?
  {
  }

  lemma RunAtByte(s: bytes, max: nat)
    requires s != [] && s[0] < 128 && max > 0
    ensures ReadRun(s, max) == Some(([s[0]], s[1..]))
  {
  }

  /** The same for a 32-bit decoder, which reads at most five bytes. */
  lemma VarintGroup32(r: bytes, b: byte)
    requires |r| <= 4
    ensures Or(GroupSum(r), b % 128 * Pow2(7 * |r|) % TWO_TO_THE_32) == GroupSum(r + [b]) % TWO_TO_THE_32
  {
    hide Or, Pow2, Pow128, GroupSum;
    var k, p, g, x := |r|, Pow128(|r|), GroupSum(r), b % 128;
    Pow2OfGroups(k);
    GroupSumBound(r);
    GroupSumAppend(r, b);
    Pow128Values();
    if k <= 3 {
      Pow128Monotone(k, 3);
      LowGroup32(g, x, p);
      SmallMod(x * p, TWO_TO_THE_32);
      SmallMod(g + x * p, TWO_TO_THE_32);
      OrOfDisjoint(g, 7 * k, x);
    } else {
      FifthGroup(g, x);
      OrOfDisjoint(g, 28, x % 16);
    }
  }

  lemma LowGroup32(g: nat, x: nat, p: nat)
    requires x < 128 && g < p <= 0x20_0000
    ensures x * p < TWO_TO_THE_32 && g + x * p < TWO_TO_THE_32
  {
    MulMonotone(x, 127, p);
  }

  /** The group at bit 28, of which only the lowest four bits fit. */
  lemma FifthGroup(g: nat, x: nat)
    requires x < 128 && g < 0x1000_0000
    ensures x * 0x1000_0000 % TWO_TO_THE_32 == x % 16 * 0x1000_0000
    ensures (g + x * 0x1000_0000) % TWO_TO_THE_32 == g + x % 16 * 0x1000_0000
  {
    var low, q := x % 16, x / 16;
    assert x == 16 * q + low;
    assert x * 0x1000_0000 == q * TWO_TO_THE_32 + low * 0x1000_0000;
  }

  lemma GroupSumSmall32(r: bytes)
    requires |r| <= 4
    ensures GroupSum(r) % TWO_TO_THE_32 == GroupSum(r)
  {
    GroupSumBound(r);
    Pow128Monotone(|r|, 4);
    Pow128Values();
    SmallMod(GroupSum(r), TWO_TO_THE_32);
  }
}
