/** Internal keys: a user key followed by eight bytes holding sequence number and value type. */
module DbFormat {
  import opened Bytes
  import opened Coding
  import opened Comparators
  import opened Varint

  datatype ValueType = Deletion | Value {
    function Code(): nat { if Deletion? then 0 else 1 }
  }

  const VALUE_TYPE_FOR_SEEK: ValueType := Value
  const MAX_SEQUENCE_NUMBER: nat := 0xFF_FFFF_FFFF_FFFF

  datatype ParsedInternalKey = ParsedInternalKey(userKey: bytes, sequence: nat, kind: ValueType) {
    predicate InRange() { sequence <= MAX_SEQUENCE_NUMBER }
  }

  function PackSequenceAndType(seq_: nat, t: ValueType): nat
    requires seq_ <= MAX_SEQUENCE_NUMBER
  {
    seq_ * 256 + t.Code()
  }

  /** The bytes AppendInternalKey adds to its argument. */
  function EncodeInternalKey(key: ParsedInternalKey): (k: bytes)
    requires key.InRange()
    ensures |k| == |key.userKey| + 8
  {
    key.userKey + LeBytes(PackSequenceAndType(key.sequence, key.kind), 8)
  }

  function ExtractUserKey(k: bytes): bytes
    requires |k| >= 8
  {
    k[..|k| - 8]
  }

  /** The packed sequence number and type at the end of an internal key. */
  function Number(k: bytes): nat
    requires |k| >= 8
  {
    LeValue(k[|k| - 8..])
  }

  function ParseInternalKey(k: bytes): Option<ParsedInternalKey> {
    if |k| < 8 then None
    else
      var num := Number(k);
      if num % 256 == 0 then Some(ParsedInternalKey(ExtractUserKey(k), num / 256, Deletion))
      else if num % 256 == 1 then Some(ParsedInternalKey(ExtractUserKey(k), num / 256, Value))
      else None
  }

  /** InternalKeyComparator::Compare. */
  function Compare(user: (bytes, bytes) -> int, a: bytes, b: bytes): int
    requires |a| >= 8 && |b| >= 8
  {
    var r := user(ExtractUserKey(a), ExtractUserKey(b));
    if r != 0 then r
    else if Number(a) > Number(b) then -1
    else if Number(a) < Number(b) then 1
    else 0
  }

  lemma NumberOfEncoded(key: ParsedInternalKey)
    requires key.InRange()
    ensures ExtractUserKey(EncodeInternalKey(key)) == key.userKey
    ensures Number(EncodeInternalKey(key)) == key.sequence * 256 + key.kind.Code()
  {
    var num := PackSequenceAndType(key.sequence, key.kind);
    Pow256Values();
    LeRoundTrip(num, 8);
    assert EncodeInternalKey(key)[|key.userKey|..] == LeBytes(num, 8);
  }

  /** AppendInternalKey. */
  method AppendInternalKey(result: StdString, key: ParsedInternalKey)
    requires key.InRange()
    modifies result
    ensures result.data == old(result.data) + EncodeInternalKey(key)
  {
    result.data := result.data + key.userKey;
    result.data := result.data + LeBytes(PackSequenceAndType(key.sequence, key.kind), 8);
  }

  /** Internal keys and the byte strings that parse are in bijection. */
  lemma InternalKeyRoundTrip(key: ParsedInternalKey)
    requires key.InRange()
    ensures ParseInternalKey(EncodeInternalKey(key)) == Some(key)
  {
    hide LeBytes, LeValue, Number;
    NumberOfEncoded(key);
  }

  lemma {:induction false} LeBytesOfValue(bs: bytes)
    ensures LeBytes(LeValue(bs), |bs|) == bs
  {
    if bs != [] {
      LeBytesOfValue(bs[1..]);
      assert LeValue(bs) / 256 == LeValue(bs[1..]);
    }
  }

  lemma ParsedKeyEncodesBack(k: bytes)
    requires ParseInternalKey(k).Some?
    ensures ParseInternalKey(k).value.InRange() && EncodeInternalKey(ParseInternalKey(k).value) == k
  {
    var tail := k[|k| - 8..];
    LeValueBound(tail);
    Pow256Values();
    LeBytesOfValue(tail);
    var p := ParseInternalKey(k).value;
    assert PackSequenceAndType(p.sequence, p.kind) == Number(k);
  }

  /** Packing is injective: equal numbers come from equal sequence numbers and types. */
  lemma PackIsInjective(seq1: nat, t1: ValueType, seq2: nat, t2: ValueType)
    requires seq1 <= MAX_SEQUENCE_NUMBER && seq2 <= MAX_SEQUENCE_NUMBER
    requires PackSequenceAndType(seq1, t1) == PackSequenceAndType(seq2, t2)
    ensures seq1 == seq2 && t1 == t2
  {
    assert t1.Code() == PackSequenceAndType(seq1, t1) % 256;
    assert t2.Code() == PackSequenceAndType(seq2, t2) % 256;
  }

  // ---- the order of internal keys ----

  /** User key ascending, then sequence number descending, then type descending. */
  predicate KeyBefore(user: (bytes, bytes) -> int, a: ParsedInternalKey, b: ParsedInternalKey) {
    || user(a.userKey, b.userKey) < 0
    || (user(a.userKey, b.userKey) == 0 && a.sequence > b.sequence)
    || (user(a.userKey, b.userKey) == 0 && a.sequence == b.sequence && a.kind == Value && b.kind == Deletion)
  }

  lemma CompareIsKeyOrder(user: (bytes, bytes) -> int, a: ParsedInternalKey, b: ParsedInternalKey)
    requires a.InRange() && b.InRange() && TotalOrder(user)
    ensures Compare(user, EncodeInternalKey(a), EncodeInternalKey(b)) < 0 <==> KeyBefore(user, a, b)
    ensures Compare(user, EncodeInternalKey(a), EncodeInternalKey(b)) > 0 <==> KeyBefore(user, b, a)
    ensures Compare(user, EncodeInternalKey(a), EncodeInternalKey(b)) == 0 <==>
              user(a.userKey, b.userKey) == 0 && a.sequence == b.sequence && a.kind == b.kind
  {
    NumberOfEncoded(a);
    NumberOfEncoded(b);
  }

  /** Compare orders all byte strings long enough to be internal keys. */
  lemma CompareIsTotal(user: (bytes, bytes) -> int, a: bytes, b: bytes, c: bytes)
    requires TotalOrder(user) && |a| >= 8 && |b| >= 8 && |c| >= 8
    ensures Compare(user, a, b) <= 0 <==> Compare(user, b, a) >= 0
    ensures Compare(user, a, b) <= 0 && Compare(user, b, c) <= 0 ==> Compare(user, a, c) <= 0
    ensures Compare(user, a, b) <= 0 && Compare(user, b, c) < 0 ==> Compare(user, a, c) < 0
    ensures Compare(user, a, b) < 0 && Compare(user, b, c) <= 0 ==> Compare(user, a, c) < 0
  {
    var ua, ub, uc := ExtractUserKey(a), ExtractUserKey(b), ExtractUserKey(c);
    if user(ua, ub) <= 0 && user(ub, uc) <= 0 {
      LessTransitive(user, ua, ub, uc);
      if user(ua, ub) == 0 && user(ub, uc) == 0 {
        LessTransitive(user, uc, ub, ua);
      }
    }
  }

  /** Under the bytewise comparator only identical keys compare as equal. */
  lemma BytewiseKeysAreDistinct(a: bytes, b: bytes)
    requires |a| >= 8 && |b| >= 8
    ensures Compare(BytewiseCompare, a, b) == 0 <==> a == b
  {
    hide BytewiseCompare, LeBytes, LeValue;
    BytewiseAntisymmetric(ExtractUserKey(a), ExtractUserKey(b));
    var x, y := a[|a| - 8..], b[|b| - 8..];
    if Compare(BytewiseCompare, a, b) == 0 {
      LeBytesOfValue(x);
      LeBytesOfValue(y);
      assert a == ExtractUserKey(a) + x && b == ExtractUserKey(b) + y;
    }
  }

  /** The key sought for user key t at sequence number s comes at or before exactly the entries
      of later user keys and the entries of t no newer than s. */
  lemma SeekKeySplits(user: (bytes, bytes) -> int, t: bytes, s: nat, e: ParsedInternalKey)
    requires s <= MAX_SEQUENCE_NUMBER && e.InRange() && TotalOrder(user)
    ensures Compare(user, EncodeInternalKey(ParsedInternalKey(t, s, VALUE_TYPE_FOR_SEEK)), EncodeInternalKey(e)) <= 0
            <==> user(t, e.userKey) < 0 || (user(t, e.userKey) == 0 && e.sequence <= s)
  {
    CompareIsKeyOrder(user, ParsedInternalKey(t, s, VALUE_TYPE_FOR_SEEK), e);
  }

  // ---- shortened keys for index blocks ----

  /** The user comparator's proposal is shorter but larger than the user key. */
  predicate Shortened(c: Comparator, userKey: bytes, proposal: bytes) {
    |proposal| < |userKey| && c.compare(userKey, proposal) < 0
  }

  /** The earliest internal key of a user key. */
  function EarliestKey(userKey: bytes): (k: bytes)
    ensures |k| == |userKey| + 8
  {
    EncodeInternalKey(ParsedInternalKey(userKey, MAX_SEQUENCE_NUMBER, VALUE_TYPE_FOR_SEEK))
  }

  function InternalSeparator(c: Comparator, start: bytes, limit: bytes): (r: bytes)
    requires |start| >= 8 && |limit| >= 8
    ensures 8 <= |r| <= |start|
  {
    var tmp := c.separator(ExtractUserKey(start), ExtractUserKey(limit));
    if Shortened(c, ExtractUserKey(start), tmp) then EarliestKey(tmp) else start
  }

  function InternalSuccessor(c: Comparator, key: bytes): (r: bytes)
    requires |key| >= 8
    ensures 8 <= |r| <= |key|
  {
    var tmp := c.successor(ExtractUserKey(key));
    if Shortened(c, ExtractUserKey(key), tmp) then EarliestKey(tmp) else key
  }

  /** InternalKeyComparator::FindShortestSeparator. */
  method FindShortestSeparator(c: Comparator, start: StdString, limit: bytes)
    requires |start.data| >= 8 && |limit| >= 8
    modifies start
    ensures start.data == InternalSeparator(c, old(start.data), limit)
  {
    var userStart := ExtractUserKey(start.data);
    var userLimit := ExtractUserKey(limit);
    var tmp := new StdString(c.separator(userStart, userLimit));
    if |tmp.data| < |userStart| && c.compare(userStart, tmp.data) < 0 {
      // The proposal saves space and is past the user key: its first internal key is taken.
      tmp.data := tmp.data + LeBytes(PackSequenceAndType(MAX_SEQUENCE_NUMBER, VALUE_TYPE_FOR_SEEK), 8);
      start.data := tmp.data;
    }
  }

  /** InternalKeyComparator::FindShortSuccessor. */
  method FindShortSuccessor(c: Comparator, key: StdString)
    requires |key.data| >= 8
    modifies key
    ensures key.data == InternalSuccessor(c, old(key.data))
  {
    var userKey := ExtractUserKey(key.data);
    var tmp := new StdString(c.successor(userKey));
    if |tmp.data| < |userKey| && c.compare(userKey, tmp.data) < 0 {
      tmp.data := tmp.data + LeBytes(PackSequenceAndType(MAX_SEQUENCE_NUMBER, VALUE_TYPE_FOR_SEEK), 8);
      key.data := tmp.data;
    }
  }

  /** The earliest key of a user key comes at or before every entry of it. */
  lemma EarliestIsFirst(user: (bytes, bytes) -> int, userKey: bytes, e: ParsedInternalKey)
    requires TotalOrder(user) && e.InRange() && user(userKey, e.userKey) == 0
    ensures Compare(user, EarliestKey(userKey), EncodeInternalKey(e)) <= 0
  {
    CompareIsKeyOrder(user, ParsedInternalKey(userKey, MAX_SEQUENCE_NUMBER, VALUE_TYPE_FOR_SEEK), e);
  }

  /** The separator and the successor save space exactly when the user comparator proposes a shorter,
      larger key; then they are the first internal key of that. */
  lemma ShortenedKeys(c: Comparator, start: bytes, limit: bytes)
    requires |start| >= 8 && |limit| >= 8
    ensures |InternalSeparator(c, start, limit)| < |start| || InternalSeparator(c, start, limit) == start
    ensures |InternalSuccessor(c, start)| < |start| || InternalSuccessor(c, start) == start
    ensures var us := ExtractUserKey(start);
            var p, q := c.separator(us, ExtractUserKey(limit)), c.successor(us);
            && (|InternalSeparator(c, start, limit)| < |start| <==> |p| < |us| && c.compare(us, p) < 0)
            && (InternalSeparator(c, start, limit) == start || InternalSeparator(c, start, limit) == EarliestKey(p))
            && (|InternalSuccessor(c, start)| < |start| <==> |q| < |us| && c.compare(us, q) < 0)
            && (InternalSuccessor(c, start) == start || InternalSuccessor(c, start) == EarliestKey(q))
  {
    hide EncodeInternalKey;
  }

  /** User key "a", sequence number 258, a value: the number follows the type, low byte first. */
  lemma InternalKeyExample()
    ensures EncodeInternalKey(ParsedInternalKey([0x61], 258, Value)) == [0x61, 1, 2, 1, 0, 0, 0, 0, 0]
    ensures EncodeInternalKey(ParsedInternalKey([], 0, Deletion)) == [0, 0, 0, 0, 0, 0, 0, 0]
  {
    hide LeBytes;
    ZeroBytes(8);
    ZeroBytes(5);
    LeStep(66049, 8);
    LeStep(258, 7);
    LeStep(1, 6);
    assert LeBytes(66049, 8) == [1] + ([2] + ([1] + [0, 0, 0, 0, 0]));
  }

  lemma ZeroBytes(n: nat)
    requires n == 5 || n == 8
    ensures LeBytes(0, n) == if n == 5 then [0, 0, 0, 0, 0] else [0, 0, 0, 0, 0, 0, 0, 0]
  {
    hide LeBytes;
    LeStep(0, 1);
    LeStep(0, 2);
    LeStep(0, 3);
    LeStep(0, 4);
    LeStep(0, 5);
    LeStep(0, 6);
    LeStep(0, 7);
    LeStep(0, 8);
  }

  lemma UserKeyOfEarliest(userKey: bytes)
    ensures ExtractUserKey(EarliestKey(userKey)) == userKey
  {
  }

  /** The separator is at or after start. It is below limit exactly when the user keys differ or
      the user comparator does not propose a shorter, larger key for two equal user keys, which
      its contract leaves open. */
  lemma SeparatorInRange(c: Comparator, start: bytes, limit: bytes)
    requires Contract(c) && |start| >= 8 && |limit| >= 8
    requires Compare(c.compare, start, limit) < 0
    ensures Compare(c.compare, start, InternalSeparator(c, start, limit)) <= 0
    ensures Compare(c.compare, InternalSeparator(c, start, limit), limit) < 0 <==>
              || c.compare(ExtractUserKey(start), ExtractUserKey(limit)) < 0
              || !Shortened(c, ExtractUserKey(start), c.separator(ExtractUserKey(start), ExtractUserKey(limit)))
  {
    var us, ul := ExtractUserKey(start), ExtractUserKey(limit);
    var tmp := c.separator(us, ul);
    CompareIsTotal(c.compare, start, start, start);
    if Shortened(c, us, tmp) {
      UserKeyOfEarliest(tmp);
      if c.compare(us, ul) == 0 {
        LessTransitive(c.compare, ul, us, tmp);
      }
    }
  }

  /** With the bytewise comparator the separator always lies in [start, limit). */
  lemma BytewiseSeparatorInRange(start: bytes, limit: bytes)
    requires |start| >= 8 && |limit| >= 8
    requires Compare(BytewiseCompare, start, limit) < 0
    ensures Compare(BytewiseCompare, start, InternalSeparator(Bytewise(), start, limit)) <= 0
    ensures Compare(BytewiseCompare, InternalSeparator(Bytewise(), start, limit), limit) < 0
  {
    BytewiseContract();
    BytewiseSeparates(ExtractUserKey(start), ExtractUserKey(limit));
    SeparatorInRange(Bytewise(), start, limit);
  }

  /** Longer keys first; for two keys of one length the empty key is proposed. */
  function LongestFirst(): Comparator {
    Comparator((a: bytes, b: bytes) => |b| - |a|,
               (start: bytes, limit: bytes) => if |start| > |limit| then start else [],
               (key: bytes) => key)
  }

  lemma LongestFirstContract()
    ensures Contract(LongestFirst())
  {
  }

  /** A comparator that keeps its contract and still leads the separator past limit: start and
      limit are two versions of one user key. */
  lemma SeparatorCanPassLimit()
    ensures Contract(LongestFirst())
    ensures var start := EncodeInternalKey(ParsedInternalKey([1], 2, Value));
            var limit := EncodeInternalKey(ParsedInternalKey([1], 1, Value));
            && Compare(LongestFirst().compare, start, limit) < 0
            && Compare(LongestFirst().compare, InternalSeparator(LongestFirst(), start, limit), limit) > 0
  {
    hide Contract, TotalOrder, EncodeInternalKey, Number;
    LongestFirstContract();
    NumberOfEncoded(ParsedInternalKey([1], 2, Value));
    NumberOfEncoded(ParsedInternalKey([1], 1, Value));
    UserKeyOfEarliest([]);
  }

  /** The successor is at or after the key, and after it when it was changed. */
  lemma SuccessorNotBefore(c: Comparator, key: bytes)
    requires Contract(c) && |key| >= 8
    ensures Compare(c.compare, key, InternalSuccessor(c, key)) <= 0
    ensures InternalSuccessor(c, key) != key ==> Compare(c.compare, key, InternalSuccessor(c, key)) < 0
  {
    UserKeyOfEarliest(c.successor(ExtractUserKey(key)));
    CompareIsTotal(c.compare, key, key, key);
  }

  // ---- LookupKey ----

  /** LookupKey: one buffer that holds the key for a memtable and, behind its length, the key for
      an internal iterator. */
  class LookupKey {
    const start: array<byte>
    const kstart: nat
    const end: nat

    ghost predicate Valid()
      reads this
    {
      kstart + 8 <= end <= start.Length
    }

    function MemtableKey(): bytes
      requires Valid()
      reads this, start
    {
      start[..end]
    }

    function InternalKey(): bytes
      requires Valid()
      reads this, start
    {
      start[kstart..end]
    }

    function UserKey(): bytes
      requires Valid()
      reads this, start
    {
      start[kstart..end - 8]
    }

    constructor (userKey: bytes, s: nat)
      requires s <= MAX_SEQUENCE_NUMBER
      ensures Valid() && fresh(start)
      ensures UserKey() == userKey
      ensures InternalKey() == EncodeInternalKey(ParsedInternalKey(userKey, s, VALUE_TYPE_FOR_SEEK))
      ensures MemtableKey() == EncVarint((|userKey| + 8) % TWO_TO_THE_32) + InternalKey()
    {
      hide EncVarint, LeBytes;
      var usize := |userKey|;
      var needed := usize + 13;  // at most five bytes of length and eight of tag
      var dst := new byte[if needed <= 200 then 200 else needed](_ => 0);
      var k := EncodeVarint32(dst, 0, (usize + 8) % TWO_TO_THE_32);
      PutBytes(dst, k, userKey);
      EncodeFixed64(dst, k + usize, PackSequenceAndType(s, VALUE_TYPE_FOR_SEEK));
      start, kstart, end := dst, k, k + usize + 8;
      ThreeParts(dst[..k + usize + 8], EncVarint((usize + 8) % TWO_TO_THE_32), userKey,
                 LeBytes(PackSequenceAndType(s, VALUE_TYPE_FOR_SEEK), 8));
      new;
      SliceOfSlice(start[..], kstart, end);
      SliceOfSlice(start[..], kstart, end - 8);
    }
  }

  lemma ThreeParts(s: bytes, a: bytes, b: bytes, c: bytes)
    requires s == a + b + c
    ensures s == a + (b + c) && s[|a|..] == b + c && s[|a|..|s| - |c|] == b
  {
  }

  lemma SliceOfSlice(s: bytes, a: nat, b: nat)
    requires a <= b <= |s|
    ensures s[..b][a..] == s[a..b]
  {
  }

  /** The memtable key is self-delimiting: LevelDB's reader of length-prefixed slices gives back
      the internal key, whatever follows in memory. */
  lemma MemtableKeyDelimits(userKey: bytes, s: nat, t: bytes)
    requires s <= MAX_SEQUENCE_NUMBER && |userKey| + 8 < TWO_TO_THE_32
    ensures var key := EncodeInternalKey(ParsedInternalKey(userKey, s, VALUE_TYPE_FOR_SEEK));
            LengthPrefixed(EncVarint(|userKey| + 8) + key + t) == Some((key, t))
  {
    LengthPrefixRoundTrip(EncodeInternalKey(ParsedInternalKey(userKey, s, VALUE_TYPE_FOR_SEEK)), t);
  }
}
