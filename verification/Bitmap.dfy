/** The bitmap of required fields seen, and the mask test over its 32-bit words. */
module Bitmap {
  import opened Bytes
  import opened Varint
  import opened Decoding

  const ALL_BITS: nat := 0xFFFF_FFFF

  predicate ShiftedBit(w: nat, k: nat) {
    if k == 0 then w % 2 == 1 else ShiftedBit(w / 2, k - 1)
  }

  /** Bit k of a word. */
  predicate BitAt(w: nat, k: nat) {
    ShiftedBit(w, k)
  }

  lemma {:induction false} BitOfZero(k: nat)
    ensures !BitAt(0, k)
  {
    if k > 0 {
      BitOfZero(k - 1);
    }
  }

  lemma {:induction false} OrBits(a: nat, b: nat, k: nat)
    ensures BitAt(Or(a, b), k) <==> BitAt(a, k) || BitAt(b, k)
  {
    BitOfZero(k);
    if a != 0 && b != 0 && k > 0 {
      assert Or(a, b) / 2 == Or(a / 2, b / 2);
      OrBits(a / 2, b / 2, k - 1);
    }
  }

  lemma {:induction false} BitOfPower(n: nat, k: nat)
    ensures BitAt(Pow2(n), k) <==> k == n
  {
    if n == 0 && k > 0 {
      BitOfZero(k - 1);
    } else if n > 0 && k > 0 {
      assert Pow2(n) / 2 == Pow2(n - 1);
      BitOfPower(n - 1, k - 1);
    }
  }

  lemma BitStep(w: nat, k: nat)
    ensures BitAt(w, k) <==> if k == 0 then w % 2 == 1 else BitAt(w / 2, k - 1)
  {
  }

  /** The mask of r ones has exactly the bits below r. */
  lemma {:induction false} MaskBits(r: nat, k: nat)
    ensures BitAt(Pow2(r) - 1, k) <==> k < r
  {
    hide BitAt;
    BitOfZero(k);
    if r > 0 {
      BitStep(Pow2(r) - 1, k);
      assert Pow2(r) == 2 * Pow2(r - 1);
      assert (Pow2(r) - 1) / 2 == Pow2(r - 1) - 1 && (Pow2(r) - 1) % 2 == 1;
      if k > 0 {
        MaskBits(r - 1, k - 1);
      }
    }
  }

  /** A word below 2^r with all bits below r is the mask of r ones. */
  lemma {:induction false} FullIsMask(w: nat, r: nat)
    requires w < Pow2(r) && forall j :: 0 <= j < r ==> BitAt(w, j)
    ensures w == Pow2(r) - 1
  {
    hide BitAt;
    if r > 0 {
      forall j | 0 <= j < r - 1
        ensures BitAt(w / 2, j)
      {
        BitStep(w, j + 1);
        assert BitAt(w, j + 1);
      }
      FullIsMask(w / 2, r - 1);
      assert BitAt(w, 0);
      BitStep(w, 0);
    }
  }

  /** A word without bits from r on is the mask of r ones exactly when it has all bits below r. */
  lemma FullWord(w: nat, r: nat)
    requires w < Pow2(r)
    ensures w == Pow2(r) - 1 <==> forall j :: 0 <= j < r ==> BitAt(w, j)
  {
    if forall j :: 0 <= j < r ==> BitAt(w, j) {
      FullIsMask(w, r);
    }
    if w == Pow2(r) - 1 {
      forall j | 0 <= j < r
        ensures BitAt(w, j)
      {
        MaskBits(r, j);
      }
    }
  }

  /** A word whose bits all lie below r is smaller than 2^r. */
  lemma {:induction false} BoundedByBits(w: nat, r: nat, m: nat)
    requires w < Pow2(m) && r <= m && forall j :: r <= j < m ==> !BitAt(w, j)
    ensures w < Pow2(r)
  {
    hide BitAt;
    if r == 0 {
      if w != 0 {
        var j := SomeBit(w, m);
      }
    } else {
      forall j | r - 1 <= j < m - 1
        ensures !BitAt(w / 2, j)
      {
        BitStep(w, j + 1);
        assert !BitAt(w, j + 1);
      }
      BoundedByBits(w / 2, r - 1, m - 1);
    }
  }

  lemma {:induction false} SomeBit(w: nat, m: nat) returns (j: nat)
    requires 0 < w < Pow2(m)
    ensures j < m && BitAt(w, j)
  {
    if w % 2 == 1 {
      j := 0;
    } else {
      j := SomeBit(w / 2, m - 1);
      j := j + 1;
    }
  }

  lemma Regroup(p: nat, q: nat)
    ensures 2 * (p * q) == (2 * p) * q
  {
  }

  lemma Pow2Doubles(n: nat)
    ensures Pow2(0) == 1 && Pow2(n + 1) == 2 * Pow2(n)
  {
  }

  lemma {:induction false} Pow2Sum(a: nat, b: nat)
    ensures Pow2(a + b) == Pow2(a) * Pow2(b)
  {
    hide Pow2;
    if a == 0 {
      Pow2Doubles(0);
    } else {
      Pow2Sum(a - 1, b);
      Pow2Doubles(a - 1);
      Pow2Doubles(a - 1 + b);
      Regroup(Pow2(a - 1), Pow2(b));
    }
  }

  /** Shifting the word of all ones right leaves a mask. */
  lemma ShiftedMask(r: nat)
    requires r <= 32
    ensures ALL_BITS / Pow2(32 - r) == Pow2(r) - 1
  {
    hide Pow2;
    Pow2Values();
    Pow2Sum(r, 32 - r);
    var p, q := Pow2(r), Pow2(32 - r);
    assert ALL_BITS == (p - 1) * q + (q - 1);
    QuotientIs(ALL_BITS, q, p - 1, q - 1);
  }

  /** The words hold the set of field indices. */
  ghost predicate Holds(words: seq<nat>, seen: set<nat>) {
    && |words| == 2
    && words[0] < Pow2(32) && words[1] < Pow2(32)
    && forall k :: 0 <= k < MAX_REQUIRED_FIELDS ==> (k in seen <==> BitAt(words[k / 32], k % 32))
  }

  /** fields_seen, marked for required field k. */
  method Mark(words: array<nat>, k: nat, ghost seen: set<nat>)
    requires k < MAX_REQUIRED_FIELDS && Holds(words[..], seen)
    modifies words
    ensures Holds(words[..], seen + {k})
  {
    hide Or, Pow2, BitAt;
    var tmp := Pow2(k % 32);
    ghost var before := words[..];
    words[k / 32] := Or(words[k / 32], tmp);
    Pow2Monotone(k % 32, 32);
    OrBound(before[k / 32], tmp, 32);
    forall j | 0 <= j < MAX_REQUIRED_FIELDS
      ensures j in seen + {k} <==> BitAt(words[j / 32], j % 32)
    {
      OrBits(before[k / 32], tmp, j % 32);
      BitOfPower(k % 32, j % 32);
    }
  }

  lemma {:induction false} Pow2Monotone(m: nat, n: nat)
    requires m < n
    ensures Pow2(m) < Pow2(n)
  {
    if m + 1 < n {
      Pow2Monotone(m, n - 1);
    }
  }

  /** The check of pb_decode_noinit that all of n required fields were present: whole words
      against all ones, and the remaining bits against a mask. */
  method AllPresent(words: array<nat>, n: nat, ghost seen: set<nat>) returns (ok: bool)
    requires n <= MAX_REQUIRED_FIELDS && Holds(words[..], seen)
    requires n > 0 ==> forall k :: k in seen ==> k < n
    ensures ok <==> forall k :: 0 <= k < n ==> k in seen
  {
    hide Pow2, BitAt;
    if n > 0 {
      var i := 0;
      while i < n / 32
        invariant 0 <= i <= n / 32
        invariant forall k :: 0 <= k < 32 * i ==> k in seen
      {
        WholeWord(words[..], seen, i);
        if words[i] != ALL_BITS {
          return false;
        }
        i := i + 1;
      }
      var r := n % 32;
      if r != 0 {
        DivMod(n, 32);
        PartWord(words[..], seen, n / 32, r);
        if words[n / 32] != ALL_BITS / Pow2(32 - r) {
          return false;
        }
      }
    }
    ok := true;
  }

  lemma WordBit(words: seq<nat>, seen: set<nat>, i: nat, k: nat)
    requires Holds(words, seen) && i < 2 && 32 * i <= k < 32 * i + 32
    ensures k in seen <==> BitAt(words[i], k - 32 * i)
  {
    assert k / 32 == i && k % 32 == k - 32 * i;
  }

  /** The first r bits of word i stand for r consecutive required fields. */
  lemma WordBits(words: seq<nat>, seen: set<nat>, i: nat, r: nat)
    requires Holds(words, seen) && i < 2 && r <= 32
    ensures (forall j :: 0 <= j < r ==> BitAt(words[i], j)) <==> (forall k :: 32 * i <= k < 32 * i + r ==> k in seen)
  {
    if forall j :: 0 <= j < r ==> BitAt(words[i], j) {
      forall k | 32 * i <= k < 32 * i + r
        ensures k in seen
      {
        WordBit(words, seen, i, k);
      }
    }
    if forall k :: 32 * i <= k < 32 * i + r ==> k in seen {
      forall j | 0 <= j < r
        ensures BitAt(words[i], j)
      {
        assert 32 * i + j in seen;
        WordBit(words, seen, i, 32 * i + j);
      }
    }
  }

  lemma WholeWord(words: seq<nat>, seen: set<nat>, i: nat)
    requires Holds(words, seen) && i < 2
    ensures words[i] == ALL_BITS <==> forall k :: 32 * i <= k < 32 * i + 32 ==> k in seen
  {
    hide Pow2, BitAt;
    Pow2Values();
    FullWord(words[i], 32);
    WordBits(words, seen, i, 32);
  }

  lemma DivMod(n: nat, d: nat)
    requires d > 0
    ensures n == n / d * d + n % d && n % d < d
  {
  }

  /** A word that holds indices below 32 * i + r only has no bit from r on. */
  lemma PartBound(words: seq<nat>, seen: set<nat>, i: nat, r: nat)
    requires Holds(words, seen) && i < 2 && r <= 32
    requires forall k :: k in seen ==> k < 32 * i + r
    ensures words[i] < Pow2(r)
  {
    hide Pow2, BitAt;
    forall j | r <= j < 32
      ensures !BitAt(words[i], j)
    {
      WordBit(words, seen, i, 32 * i + j);
    }
    BoundedByBits(words[i], r, 32);
  }

  /** The remaining bits of n required fields in word i. */
  lemma PartWord(words: seq<nat>, seen: set<nat>, i: nat, r: nat)
    requires Holds(words, seen) && i < 2 && 0 < r < 32
    requires forall k :: k in seen ==> k < 32 * i + r
    ensures words[i] == ALL_BITS / Pow2(32 - r) <==> forall k :: 32 * i <= k < 32 * i + r ==> k in seen
  {
    hide Pow2, BitAt;
    PartBound(words, seen, i, r);
    FullWord(words[i], r);
    ShiftedMask(r);
    WordBits(words, seen, i, r);
  }
}
