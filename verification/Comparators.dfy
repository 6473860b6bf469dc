/** The user comparator a database is opened with, and LevelDB's bytewise one. */
module Comparators {
  import opened Bytes

  datatype Comparator = Comparator(
    compare: (bytes, bytes) -> int,
    separator: (bytes, bytes) -> bytes,
    successor: bytes -> bytes)

  predicate AtMost(compare: (bytes, bytes) -> int, a: bytes, b: bytes) {
    compare(a, b) <= 0
  }

  /** A three-way comparison that orders all keys; keys that compare as 0 are the same key. */
  ghost predicate TotalOrder(compare: (bytes, bytes) -> int) {
    && (forall a, b :: compare(a, b) <= 0 <==> compare(b, a) >= 0)
    && (forall a, b, c :: AtMost(compare, a, b) && AtMost(compare, b, c) ==> AtMost(compare, a, c))
  }

  /** What a comparator promises about the shortened keys it proposes. */
  ghost predicate Contract(c: Comparator) {
    && TotalOrder(c.compare)
    && (forall start, limit :: c.compare(start, limit) < 0 ==>
          c.compare(start, c.separator(start, limit)) <= 0
          && c.compare(c.separator(start, limit), limit) < 0)
    && (forall key :: c.compare(key, c.successor(key)) <= 0)
  }

  lemma LessTransitive(compare: (bytes, bytes) -> int, a: bytes, b: bytes, c: bytes)
    requires TotalOrder(compare)
    requires compare(a, b) <= 0 && compare(b, c) <= 0
    ensures compare(a, c) <= 0
    ensures compare(a, b) < 0 || compare(b, c) < 0 ==> compare(a, c) < 0
  {
    assert AtMost(compare, a, b) && AtMost(compare, b, c);
    if compare(a, c) >= 0 {
      assert AtMost(compare, c, a);
      assert AtMost(compare, b, a);
      assert AtMost(compare, c, b);
    }
  }

  /** std::string: bytes that are changed in place. */
  class StdString {
    var data: bytes

    constructor (data: bytes)
      ensures this.data == data
    {
      this.data := data;
    }
  }

  // ---- BytewiseComparatorImpl ----

  /** Slice::compare: memcmp over the common length, then the lengths. */
  function BytewiseCompare(a: bytes, b: bytes): int {
    if a == [] && b == [] then 0
    else if a == [] then -1
    else if b == [] then 1
    else if a[0] < b[0] then -1
    else if a[0] > b[0] then 1
    else BytewiseCompare(a[1..], b[1..])
  }

  /** A key from start on and below limit, no longer than start. */
  function BytewiseSeparator(start: bytes, limit: bytes): (r: bytes)
    ensures |r| <= |start|
  {
    if start == [] || limit == [] then start
    else if start[0] == limit[0] then
      [start[0]] + BytewiseSeparator(start[1..], limit[1..])
    else if start[0] < 0xFF && start[0] + 1 < limit[0] then [start[0] + 1]
    else start
  }

  /** A key at or after key, no longer than key. */
  function BytewiseSuccessor(key: bytes): (r: bytes)
    ensures |r| <= |key|
  {
    if key == [] then []
    else if key[0] != 0xFF then [key[0] + 1]
    else [key[0]] + BytewiseSuccessor(key[1..])
  }

  function Bytewise(): Comparator {
    Comparator(BytewiseCompare, BytewiseSeparator, BytewiseSuccessor)
  }

  lemma {:induction false} BytewiseAntisymmetric(a: bytes, b: bytes)
    ensures BytewiseCompare(a, b) == -BytewiseCompare(b, a)
    ensures BytewiseCompare(a, b) == 0 <==> a == b
  {
    if a != [] && b != [] {
      BytewiseAntisymmetric(a[1..], b[1..]);
      assert a == [a[0]] + a[1..] && b == [b[0]] + b[1..];
    }
  }

  lemma {:induction false} BytewiseTransitive(a: bytes, b: bytes, c: bytes)
    requires BytewiseCompare(a, b) <= 0 && BytewiseCompare(b, c) <= 0
    ensures BytewiseCompare(a, c) <= 0
  {
    if a != [] && b != [] && c != [] {
      if a[0] == b[0] == c[0] {
        BytewiseTransitive(a[1..], b[1..], c[1..]);
      }
    }
  }

  /** The first differing byte decides, as an unsigned number; a proper prefix comes first. */
  lemma {:induction false} BytewiseByFirstDifference(a: bytes, b: bytes, d: nat)
    requires d <= |a| && d <= |b| && a[..d] == b[..d]
    ensures d < |a| && d < |b| && a[d] < b[d] ==> BytewiseCompare(a, b) < 0
    ensures d == |a| < |b| ==> BytewiseCompare(a, b) < 0
    decreases d
  {
    if d > 0 {
      assert a[0] == a[..d][0] == b[..d][0] == b[0];
      assert a[1..][..d - 1] == a[..d][1..] == b[..d][1..] == b[1..][..d - 1];
      BytewiseByFirstDifference(a[1..], b[1..], d - 1);
    }
  }

  /** A common first byte does not matter. */
  lemma BytewiseCommonByte(x: byte, a: bytes, b: bytes)
    ensures BytewiseCompare([x] + a, [x] + b) == BytewiseCompare(a, b)
  {
    assert ([x] + a)[1..] == a && ([x] + b)[1..] == b;
  }

  lemma {:induction false} BytewiseSeparates(start: bytes, limit: bytes)
    ensures BytewiseCompare(start, limit) < 0 ==>
              BytewiseCompare(start, BytewiseSeparator(start, limit)) <= 0
              && BytewiseCompare(BytewiseSeparator(start, limit), limit) < 0
    ensures BytewiseCompare(start, limit) == 0 ==> BytewiseSeparator(start, limit) == start
  {
    BytewiseAntisymmetric(start, start);
    BytewiseAntisymmetric(start, limit);
    if start != [] && limit != [] && start[0] == limit[0] {
      BytewiseSeparates(start[1..], limit[1..]);
      var tail := BytewiseSeparator(start[1..], limit[1..]);
      assert start == [start[0]] + start[1..] && limit == [limit[0]] + limit[1..];
      BytewiseCommonByte(start[0], start[1..], tail);
      BytewiseCommonByte(start[0], tail, limit[1..]);
    }
  }

  /** The successor is larger, except that a run of 0xFF bytes stays as it is. */
  lemma {:induction false} BytewiseSucceeds(key: bytes)
    ensures BytewiseCompare(key, BytewiseSuccessor(key)) <= 0
    ensures BytewiseCompare(key, BytewiseSuccessor(key)) == 0 <==> forall i :: 0 <= i < |key| ==> key[i] == 0xFF
  {
    if key != [] && key[0] == 0xFF {
      BytewiseSucceeds(key[1..]);
      assert key == [key[0]] + key[1..];
      BytewiseCommonByte(key[0], key[1..], BytewiseSuccessor(key[1..]));
    }
  }

  /** The successor is as short as any key at or after the key. */
  lemma {:induction false} SuccessorIsShortest(key: bytes, k: bytes)
    requires BytewiseCompare(key, k) <= 0
    ensures |BytewiseSuccessor(key)| <= |k|
  {
    if key != [] && k != [] && key[0] == 0xFF {
      SuccessorIsShortest(key[1..], k[1..]);
    }
  }

  /** Where start and limit first differ by more than one, the separator is cut behind that byte, and
      is as short as any key from start on and below limit, but for start itself. */
  lemma {:induction false} SeparatorIsShortest(start: bytes, limit: bytes, d: nat, k: bytes)
    requires d < |start| && d < |limit| && start[..d] == limit[..d]
    requires start[d] < 0xFF && start[d] + 1 < limit[d]
    ensures BytewiseSeparator(start, limit) == start[..d] + [start[d] + 1]
    ensures BytewiseCompare(start, k) <= 0 && BytewiseCompare(k, limit) < 0 ==> |BytewiseSeparator(start, limit)| <= |k|
    decreases d
  {
    if d > 0 {
      assert start[0] == start[..d][0] == limit[..d][0] == limit[0];
      assert start[1..][..d - 1] == start[..d][1..] == limit[..d][1..] == limit[1..][..d - 1];
      SeparatorIsShortest(start[1..], limit[1..], d - 1, if k == [] then [] else k[1..]);
      SeparatorStep(start, limit);
      assert [start[0]] + (start[1..][..d - 1] + [start[d] + 1]) == start[..d] + [start[d] + 1];
    } else {
      SeparatorAtDifference(start, limit);
      assert start[..0] + [start[0] + 1] == [start[0] + 1];
    }
  }

  /** The builtin comparator keeps the contract. */
  lemma BytewiseContract()
    ensures Contract(Bytewise())
  {
    var c := Bytewise();
    forall a, b
      ensures c.compare(a, b) <= 0 <==> c.compare(b, a) >= 0
    {
      BytewiseAntisymmetric(a, b);
    }
    forall x, y, z | AtMost(c.compare, x, y) && AtMost(c.compare, y, z)
      ensures AtMost(c.compare, x, z)
    {
      BytewiseTransitive(x, y, z);
    }
    forall start, limit | c.compare(start, limit) < 0
      ensures c.compare(start, c.separator(start, limit)) <= 0
      ensures c.compare(c.separator(start, limit), limit) < 0
    {
      BytewiseSeparates(start, limit);
    }
    forall key
      ensures c.compare(key, c.successor(key)) <= 0
    {
      BytewiseSucceeds(key);
    }
  }

  lemma SeparatorStep(start: bytes, limit: bytes)
    requires start != [] && limit != [] && start[0] == limit[0]
    ensures BytewiseSeparator(start, limit) == [start[0]] + BytewiseSeparator(start[1..], limit[1..])
  {
  }

  lemma SuccessorStep(key: bytes)
    requires key != [] && key[0] == 0xFF
    ensures BytewiseSuccessor(key) == [key[0]] + BytewiseSuccessor(key[1..])
  {
  }

  /** After a common prefix of d bytes, the separator is found in the rest. */
  lemma {:induction false} SeparatorAfterPrefix(start: bytes, limit: bytes, d: nat)
    requires d <= |start| && d <= |limit| && start[..d] == limit[..d]
    ensures BytewiseSeparator(start, limit) == start[..d] + BytewiseSeparator(start[d..], limit[d..])
  {
    hide BytewiseSeparator;
    if d == 0 {
      assert start[0..] == start && limit[0..] == limit;
      assert [] + BytewiseSeparator(start, limit) == BytewiseSeparator(start, limit);
    } else {
      var s, l := start[1..], limit[1..];
      assert start[0] == start[..d][0] == limit[..d][0] == limit[0];
      assert s[..d - 1] == start[..d][1..] == limit[..d][1..] == l[..d - 1];
      SeparatorStep(start, limit);
      SeparatorAfterPrefix(s, l, d - 1);
      assert s[d - 1..] == start[d..] && l[d - 1..] == limit[d..];
      var r := BytewiseSeparator(start[d..], limit[d..]);
      assert [start[0]] + (s[..d - 1] + r) == start[..d] + r;
    }
  }

  /** After d bytes 0xFF, the successor is found in the rest. */
  lemma {:induction false} SuccessorAfterRun(key: bytes, d: nat)
    requires d <= |key| && forall i :: 0 <= i < d ==> key[i] == 0xFF
    ensures BytewiseSuccessor(key) == key[..d] + BytewiseSuccessor(key[d..])
  {
    hide BytewiseSuccessor;
    if d == 0 {
      assert key[0..] == key;
      assert [] + BytewiseSuccessor(key) == BytewiseSuccessor(key);
    } else {
      var k := key[1..];
      SuccessorStep(key);
      SuccessorAfterRun(k, d - 1);
      assert k[d - 1..] == key[d..];
      var r := BytewiseSuccessor(key[d..]);
      assert [key[0]] + (k[..d - 1] + r) == key[..d] + r;
    }
  }

  lemma SeparatorAtDifference(s: bytes, l: bytes)
    requires s == [] || l == [] || s[0] != l[0]
    ensures BytewiseSeparator(s, l) == if s != [] && l != [] && s[0] < 0xFF && s[0] + 1 < l[0] then [s[0] + 1] else s
  {
  }

  lemma SuccessorAtByte(key: bytes)
    requires key == [] || key[0] != 0xFF
    ensures BytewiseSuccessor(key) == if key == [] then [] else [key[0] + 1]
  {
  }

  /** BytewiseComparatorImpl::FindShortestSeparator. */
  method FindShortestSeparator(start: StdString, limit: bytes)
    modifies start
    ensures start.data == BytewiseSeparator(old(start.data), limit)
  {
    hide BytewiseSeparator;
    var minLength := if |start.data| < |limit| then |start.data| else |limit|;
    var d := 0;
    while d < minLength && start.data[d] == limit[d]
      invariant 0 <= d <= minLength
      invariant start.data[..d] == limit[..d]
    {
      d := d + 1;
    }
    ghost var s := start.data;
    SeparatorAfterPrefix(s, limit, d);
    SeparatorAtDifference(s[d..], limit[d..]);
    assert s[..d] + s[d..] == s;
    // Without a difference inside the common length start stays as it is.
    if d < minLength {
      var diffByte := start.data[d];
      if diffByte < 0xFF && diffByte + 1 < limit[d] {
        start.data := start.data[d := diffByte + 1];
        start.data := start.data[..d + 1];
        assert start.data == s[..d] + [diffByte + 1];
      }
    }
  }

  /** BytewiseComparatorImpl::FindShortSuccessor. */
  method FindShortSuccessor(key: StdString)
    modifies key
    ensures key.data == BytewiseSuccessor(old(key.data))
  {
    hide BytewiseSuccessor;
    ghost var k := key.data;
    for i := 0 to |key.data|
      invariant key.data == k
      invariant forall j :: 0 <= j < i ==> k[j] == 0xFF
    {
      var b := key.data[i];
      if b != 0xFF {
        SuccessorAfterRun(k, i);
        SuccessorAtByte(k[i..]);
        key.data := key.data[i := b + 1];
        key.data := key.data[..i + 1];
        assert key.data == k[..i] + [b + 1];
        return;
      }
    }
    // Every byte is 0xFF: no byte can grow.
    SuccessorAfterRun(k, |k|);
    SuccessorAtByte(k[|k|..]);
  }
}
