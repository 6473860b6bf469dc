/** DBIter: a cursor over the key/value pairs that are live at one snapshot, driven by a
    cursor over all versions of all keys. */
module DbIter {
  import opened Bytes
  import opened Comparators
  import opened DbFormat

  datatype Entry = Entry(key: bytes, value: bytes)

  /** The versions stored in a database, in internal key order, and a snapshot to read at. */
  datatype Snapshot = Snapshot(compare: (bytes, bytes) -> int, entries: seq<Entry>, sequence: nat) {

    ghost predicate WellFormed() {
      && TotalOrder(compare)
      && (forall i :: 0 <= i < |entries| ==> |entries[i].key| >= 8)
      && (forall i, j :: 0 <= i < j < |entries| ==> Before(i, j))
    }

    /** Entry i comes before entry j in internal key order. */
    predicate Before(i: int, j: int)
      requires 0 <= i < |entries| && |entries[i].key| >= 8
      requires 0 <= j < |entries| && |entries[j].key| >= 8
    {
      Compare(compare, entries[i].key, entries[j].key) < 0
    }

    function UserKey(i: int): bytes
      requires 0 <= i < |entries| && |entries[i].key| >= 8
    {
      ExtractUserKey(entries[i].key)
    }

    /** Entry i parses and is not newer than the snapshot. */
    predicate Visible(i: int)
      requires 0 <= i < |entries|
    {
      var p := ParseInternalKey(entries[i].key);
      p.Some? && p.value.sequence <= sequence
    }

    predicate IsValue(i: int)
      requires 0 <= i < |entries|
    {
      var p := ParseInternalKey(entries[i].key);
      p.Some? && p.value.kind == Value
    }

    ghost predicate SameKey(i: int, j: int)
      requires 0 <= i < |entries| && |entries[i].key| >= 8
      requires 0 <= j < |entries| && |entries[j].key| >= 8
    {
      compare(UserKey(i), UserKey(j)) == 0
    }

    /** Entry i is what a reader of the snapshot sees for its user key: it is visible, no
        visible entry of the same key carries a larger number, and it is not a deletion. */
    ghost predicate Live(i: int)
      requires WellFormed()
      requires 0 <= i < |entries|
    {
      && Visible(i)
      && IsValue(i)
      && forall j :: 0 <= j < |entries| && Visible(j) && SameKey(i, j) ==>
            Number(entries[j].key) <= Number(entries[i].key)
    }

    /** In internal key order the newest version comes first, so only earlier entries can hide one. */
    lemma LiveByPosition(i: int)
      requires WellFormed() && 0 <= i < |entries|
      ensures Live(i) <==> Visible(i) && IsValue(i) && forall j :: 0 <= j < i && Visible(j) ==> !SameKey(i, j)
    {
      forall j | 0 <= j < |entries| && SameKey(i, j)
        ensures j < i ==> Number(entries[j].key) > Number(entries[i].key)
        ensures i < j ==> Number(entries[j].key) < Number(entries[i].key)
      {
        assert compare(UserKey(j), UserKey(i)) == 0;
        assert j < i ==> Before(j, i);
        assert i < j ==> Before(i, j);
      }
    }

    lemma LongKeys()
      requires WellFormed()
      ensures forall i :: 0 <= i < |entries| ==> |entries[i].key| >= 8
    {
    }

    /** What the parsed key of entry i says. */
    lemma ParsedEntry(i: int, p: Option<ParsedInternalKey>)
      requires WellFormed() && 0 <= i < |entries| && p == ParseInternalKey(entries[i].key)
      ensures |entries[i].key| >= 8
      ensures Visible(i) <==> p.Some? && p.value.sequence <= sequence
      ensures p.Some? ==> p.value.userKey == UserKey(i) && (IsValue(i) <==> p.value.kind == Value)
    {
    }

    lemma KeysAscend(i: int, j: int)
      requires WellFormed() && 0 <= i <= j < |entries|
      ensures compare(UserKey(i), UserKey(j)) <= 0
    {
      if i < j {
        assert Before(i, j);
      }
    }

    /** A forward scan that skips passes entry i over: it comes at or before the skipped key. */
    ghost predicate Hidden(skipping: bool, skip: bytes, i: int)
      requires WellFormed() && 0 <= i < |entries|
    {
      skipping && compare(UserKey(i), skip) <= 0
    }

    /** From position a onward every entry hidden by a visible one before a is skipped, and
        no visible entry still to come lies before the skipped key. */
    ghost predicate Skips(skipping: bool, skip: bytes, a: int)
      requires WellFormed() && 0 <= a <= |entries|
    {
      && (forall i, j :: 0 <= j < a <= i < |entries| && Visible(j) && SameKey(i, j) ==>
            Hidden(skipping, skip, i))
      && (skipping ==> forall i :: a <= i < |entries| && Visible(i) ==> compare(skip, UserKey(i)) <= 0)
    }

    lemma SkipInvisible(skipping: bool, skip: bytes, c: int)
      requires WellFormed() && 0 <= c < |entries| && Skips(skipping, skip, c) && !Visible(c)
      ensures Skips(skipping, skip, c + 1) && !Live(c)
    {
    }

    lemma SkipHidden(skipping: bool, skip: bytes, c: int)
      requires WellFormed() && 0 <= c < |entries| && Skips(skipping, skip, c) && Hidden(skipping, skip, c)
      ensures Skips(skipping, skip, c + 1)
    {
      forall i | c < i < |entries| && SameKey(i, c)
        ensures Hidden(skipping, skip, i)
      {
        LessTransitive(compare, UserKey(i), UserKey(c), skip);
      }
    }

    lemma SkipDeletion(skipping: bool, skip: bytes, c: int)
      requires WellFormed() && 0 <= c < |entries| && Skips(skipping, skip, c) && Visible(c) && !IsValue(c)
      ensures Skips(true, UserKey(c), c + 1) && !Live(c)
      ensures forall i :: c < i < |entries| && Hidden(skipping, skip, i) ==> Hidden(true, UserKey(c), i)
    {
      forall i | c < i < |entries|
        ensures compare(UserKey(c), UserKey(i)) <= 0
        ensures Hidden(skipping, skip, i) ==> Hidden(true, UserKey(c), i)
      {
        KeysAscend(c, i);
        if Hidden(skipping, skip, i) {
          LessTransitive(compare, UserKey(i), skip, UserKey(c));
        }
      }
      forall i, j | 0 <= j < c + 1 <= i < |entries| && Visible(j) && SameKey(i, j)
        ensures Hidden(true, UserKey(c), i)
      {
        if j < c {
          assert Hidden(skipping, skip, i);
        }
      }
    }

    lemma StopIsLive(skipping: bool, skip: bytes, c: int)
      requires WellFormed() && 0 <= c < |entries| && Skips(skipping, skip, c)
      requires Visible(c) && IsValue(c) && !Hidden(skipping, skip, c)
      ensures Live(c)
    {
      LiveByPosition(c);
    }

    /** A visible entry behind a visible deletion that hides it is not live. */
    lemma HiddenIsNotLive(d: int, c: int)
      requires WellFormed() && 0 <= d < c < |entries| && Visible(d)
      requires compare(UserKey(c), UserKey(d)) <= 0
      ensures !Live(c)
    {
      LiveByPosition(c);
      KeysAscend(d, c);
      assert SameKey(c, d);
    }

    /** Entry i is live as far as the entries after c can tell. */
    ghost predicate LiveAfter(c: int, i: int)
      requires WellFormed() && -1 <= c && 0 <= i < |entries|
    {
      c < i && Visible(i) && IsValue(i) && forall j :: c < j < i && Visible(j) ==> !SameKey(i, j)
    }

    /** What a backward scan knows at position c: q is the only entry after c, up to start,
        that may still be live; -1 stands for none. */
    ghost predicate Candidate(c: int, start: int, q: int)
      requires WellFormed() && -1 <= c <= start < |entries|
    {
      && (q == -1 || (c < q <= start && LiveAfter(c, q) && forall j :: c < j < q ==> !Visible(j)))
      && forall i :: c < i <= start && LiveAfter(c, i) ==> i == q
    }

    lemma BackStart(start: int)
      requires WellFormed() && -1 <= start < |entries|
      ensures Candidate(start, start, -1)
    {
    }

    lemma BackInvisible(c: int, start: int, q: int)
      requires WellFormed() && 0 <= c <= start < |entries| && Candidate(c, start, q) && !Visible(c)
      ensures Candidate(c - 1, start, q)
    {
      var b := c - 1;
      forall i | b < i <= start && LiveAfter(b, i)
        ensures i == q
      {
        assert LiveAfter(c, i);
      }
    }

    /** A visible entry that does not end the scan replaces the candidate. */
    lemma BackVisible(c: int, start: int, q: int)
      requires WellFormed() && 0 <= c <= start < |entries| && Candidate(c, start, q) && Visible(c)
      requires q != -1 ==> compare(UserKey(c), UserKey(q)) >= 0
      ensures Candidate(c - 1, start, if IsValue(c) then c else -1)
    {
      var b := c - 1;
      forall i | b < i <= start && LiveAfter(b, i)
        ensures i == c && IsValue(c)
      {
        if i > c {
          assert LiveAfter(c, i);
          KeysAscend(c, q);
        }
      }
    }

    /** Position c is before all entries of the key of entry q, and everything between is invisible. */
    ghost predicate JustBefore(c: int, q: int)
      requires WellFormed() && -1 <= c < |entries| && 0 <= q < |entries|
    {
      && c < q
      && (forall j :: c < j < q ==> !Visible(j))
      && (c >= 0 ==> compare(UserKey(c), UserKey(q)) < 0)
    }

    /** A candidate whose key begins after position c, or a scan that has reached the start, is final. */
    lemma BackStop(c: int, start: int, q: int)
      requires WellFormed() && -1 <= c <= start < |entries| && Candidate(c, start, q)
      requires c == -1 || (q != -1 && compare(UserKey(c), UserKey(q)) < 0)
      ensures q != -1 ==> Live(q) && JustBefore(c, q)
      ensures forall i :: c < i <= start && Live(i) ==> i == q
    {
      if q != -1 {
        LiveByPosition(q);
        forall j | 0 <= j <= c
          ensures !SameKey(q, j)
        {
          KeysAscend(j, c);
          LessTransitive(compare, UserKey(j), UserKey(c), UserKey(q));
        }
      }
      forall i | c < i <= start && Live(i)
        ensures i == q
      {
        LiveByPosition(i);
        assert LiveAfter(c, i);
      }
    }

    /** Between the last entry of a smaller key and a live entry there is no other live entry. */
    lemma NoLiveBetween(c: int, i: int)
      requires WellFormed() && -1 <= c < i < |entries| && Live(i)
      requires forall j :: c < j < i ==> compare(UserKey(j), UserKey(i)) >= 0
      ensures forall j :: c < j < i ==> !Live(j)
    {
      forall j | c < j < i
        ensures !Live(j)
      {
        KeysAscend(j, i);
        LiveByPosition(i);
        assert SameKey(i, j);
      }
    }

    lemma NoLiveBehind(c: int, q: int)
      requires WellFormed() && -1 <= c < |entries| && 0 <= q < |entries| && JustBefore(c, q)
      ensures c < q && forall j :: c < j < q ==> !Live(j)
    {
    }

    /** Skipping the key of a live entry, starting behind the invisible entries before it. */
    lemma SkipsShown(a: int, q: int)
      requires WellFormed() && 0 <= a <= q < |entries| && Live(q)
      requires forall j :: a <= j < q ==> !Visible(j)
      requires a == q || a == 0 || compare(UserKey(a - 1), UserKey(q)) < 0
      ensures Skips(true, UserKey(q), a)
    {
      forall i | a <= i < |entries| && Visible(i)
        ensures compare(UserKey(q), UserKey(i)) <= 0
      {
        KeysAscend(q, i);
      }
      forall i, j | 0 <= j < a <= i < |entries| && Visible(j) && SameKey(i, j)
        ensures Hidden(true, UserKey(q), i)
      {
        KeysAscend(j, a - 1);
        if a == q {
          KeysAscend(j, q);
        } else {
          LessTransitive(compare, UserKey(j), UserKey(a - 1), UserKey(q));
        }
        LessTransitive(compare, UserKey(i), UserKey(j), UserKey(q));
      }
    }

    /** At the seek position for target, everything visible before has a smaller key and
        everything after a key at or past target. */
    lemma SeekSplits(target: bytes, a: int, skip: bytes)
      requires WellFormed() && sequence <= MAX_SEQUENCE_NUMBER && 0 <= a <= |entries|
      requires var k := EncodeInternalKey(ParsedInternalKey(target, sequence, VALUE_TYPE_FOR_SEEK));
               && (forall i :: 0 <= i < a ==> Compare(compare, entries[i].key, k) < 0)
               && (a < |entries| ==> Compare(compare, entries[a].key, k) >= 0)
      ensures forall i :: 0 <= i < a && Visible(i) ==> compare(UserKey(i), target) < 0
      ensures forall i :: a <= i < |entries| ==> compare(UserKey(i), target) >= 0
      ensures Skips(false, skip, a)
    {
      var k := EncodeInternalKey(ParsedInternalKey(target, sequence, VALUE_TYPE_FOR_SEEK));
      assert ExtractUserKey(k) == target;
      NumberOfEncoded(ParsedInternalKey(target, sequence, VALUE_TYPE_FOR_SEEK));
      forall i | 0 <= i < a && Visible(i)
        ensures compare(UserKey(i), target) < 0
      {
        assert Compare(compare, entries[i].key, k) < 0;
      }
      forall i | a <= i < |entries|
        ensures compare(UserKey(i), target) >= 0
      {
        KeysAscend(a, i);
        LessTransitive(compare, target, UserKey(a), UserKey(i));
      }
      forall i, j | 0 <= j < a <= i < |entries| && Visible(j)
        ensures !SameKey(i, j)
      {
        LessTransitive(compare, UserKey(j), target, UserKey(i));
      }
    }

    /** A live entry is hidden while skipping the key of live entry q exactly when it is not past q. */
    lemma HiddenLive(q: int, i: int)
      requires WellFormed() && 0 <= q < |entries| && 0 <= i < |entries| && Live(q) && Live(i)
      ensures Hidden(true, UserKey(q), i) <==> i <= q
    {
      if i <= q {
        KeysAscend(i, q);
      } else {
        KeysAscend(q, i);
        LiveByPosition(i);
        assert !SameKey(i, q);
      }
    }

    /** The live entries among the first n, in order. */
    ghost function LiveBelow(n: nat): (l: seq<int>)
      requires WellFormed() && n <= |entries|
      ensures forall p :: 0 <= p < |l| ==> 0 <= l[p] < n && Live(l[p])
    {
      if n == 0 then [] else LiveBelow(n - 1) + if Live(n - 1) then [n - 1] else []
    }

    function Pair(i: int): (bytes, bytes)
      requires 0 <= i < |entries| && |entries[i].key| >= 8
    {
      (UserKey(i), entries[i].value)
    }

    /** The pairs of the live entries among the first n. */
    ghost function Pairs(n: nat): seq<(bytes, bytes)>
      requires WellFormed() && n <= |entries|
    {
      var l := LiveBelow(n);
      seq(|l|, p requires 0 <= p < |l| => Pair(l[p]))
    }

    /** What a reader of the snapshot sees: the live key/value pairs, in key order. */
    ghost function View(): seq<(bytes, bytes)>
      requires WellFormed()
    {
      Pairs(|entries|)
    }

    /** The position in the view of a live entry. */
    ghost function Rank(i: int): nat
      requires WellFormed() && 0 <= i <= |entries|
    {
      |LiveBelow(i)|
    }

    lemma {:induction false} LiveBelowGrows(i: int, n: int)
      requires WellFormed() && 0 <= i <= n <= |entries|
      ensures LiveBelow(i) <= LiveBelow(n)
      ensures (forall j :: i <= j < n ==> !Live(j)) ==> LiveBelow(n) == LiveBelow(i)
    {
      hide Snapshot.Live, TotalOrder;
      if i < n {
        LiveBelowGrows(i, n - 1);
      }
    }

    lemma RankOfLive(i: int)
      requires WellFormed() && 0 <= i < |entries| && Live(i)
      ensures Rank(i) < |View()| && View()[Rank(i)] == Pair(i)
      ensures Rank(i + 1) == Rank(i) + 1
    {
      LiveBelowGrows(i + 1, |entries|);
    }

    /** The live entry at position p of the view. */
    lemma {:induction false} LiveAtRank(n: int, p: int) returns (i: int)
      requires WellFormed() && 0 <= n <= |entries| && 0 <= p < Rank(n)
      ensures 0 <= i < n && Live(i) && Rank(i) == p
    {
      if p < Rank(n - 1) {
        i := LiveAtRank(n - 1, p);
      } else {
        i := n - 1;
      }
    }

    /** The next live entry at or after i, or the end, has the rank of i. */
    lemma FirstPosition(i: int, next: int)
      requires WellFormed() && 0 <= i <= next <= |entries|
      requires forall j :: i <= j < next ==> !Live(j)
      ensures Rank(next) == Rank(i) && Rank(0) == 0
      ensures next == |entries| ==> Rank(i) == |View()|
    {
      LiveBelowGrows(i, next);
    }

    /** The live entry closest before i has the rank before that of i. */
    lemma LastPosition(prev: int, i: int)
      requires WellFormed() && -1 <= prev < i <= |entries| && (prev >= 0 ==> Live(prev))
      requires forall j :: prev < j < i ==> !Live(j)
      ensures (if prev >= 0 then Rank(prev) else -1) == Rank(i) - 1
      ensures i == |entries| ==> Rank(i) == |View()|
    {
      LiveBelowGrows(prev + 1, i);
    }

    /** The first live entry at or past target is where a search through the view stops. */
    lemma SeekPosition(target: bytes, next: int)
      requires WellFormed() && 0 <= next <= |entries|
      requires next < |entries| ==> Live(next) && compare(UserKey(next), target) >= 0
      requires forall i :: 0 <= i < next && Live(i) ==> compare(UserKey(i), target) < 0
      ensures FirstAtLeast(compare, View(), target, 0) == if next < |entries| then Rank(next) else -1
    {
      if next < |entries| {
        RankOfLive(next);
      }
      forall p | 0 <= p < Rank(next)
        ensures compare(View()[p].0, target) < 0
      {
        var i := LiveAtRank(next, p);
        RankOfLive(i);
      }
      FirstAtLeastIs(compare, View(), target, 0, Rank(next));
    }

    /** The keys of the view ascend strictly: every key is shown at most once. */
    lemma ViewAscends(p: int, q: int)
      requires WellFormed() && 0 <= p < q < |View()|
      ensures compare(View()[p].0, View()[q].0) < 0
    {
      var i := LiveAtRank(|entries|, p);
      var j := LiveAtRank(|entries|, q);
      RankOfLive(i);
      RankOfLive(j);
      if j <= i {
        LiveBelowGrows(j, i);
      }
      KeysAscend(i, j);
      LiveByPosition(j);
      assert !SameKey(j, i);
    }

    /** The visible entries among the first n, in order. */
    function VisibleBelow(n: nat): seq<Entry>
      requires n <= |entries|
    {
      if n == 0 then [] else VisibleBelow(n - 1) + if Visible(n - 1) then [entries[n - 1]] else []
    }

    /** The view, computed from the visible entries alone: the first entry of each key, unless
        it is a deletion. */
    static ghost function ViewOf(compare: (bytes, bytes) -> int, visible: seq<Entry>): seq<(bytes, bytes)>
      requires forall i :: 0 <= i < |visible| ==> |visible[i].key| >= 8
    {
      if visible == [] then [] else
      var n := |visible| - 1;
      ViewOf(compare, visible[..n])
      + if Shown(compare, visible[..n], visible[n]) then [(ExtractUserKey(visible[n].key), visible[n].value)] else []
    }

    /** The entry behind element k of the visible entries. */
    lemma {:induction false} VisibleSource(n: nat, k: int) returns (i: int)
      requires n <= |entries| && 0 <= k < |VisibleBelow(n)|
      ensures 0 <= i < n && Visible(i) && entries[i] == VisibleBelow(n)[k]
    {
      if k < |VisibleBelow(n - 1)| {
        i := VisibleSource(n - 1, k);
      } else {
        i := n - 1;
      }
    }

    /** Where visible entry i is among the visible entries. */
    lemma {:induction false} VisibleIndex(n: nat, i: int) returns (k: int)
      requires n <= |entries| && 0 <= i < n && Visible(i)
      ensures 0 <= k < |VisibleBelow(n)| && VisibleBelow(n)[k] == entries[i]
    {
      if i < n - 1 {
        k := VisibleIndex(n - 1, i);
      } else {
        k := |VisibleBelow(n - 1)|;
      }
    }

    lemma VisibleBelowLengths(n: nat)
      requires WellFormed() && n <= |entries|
      ensures forall k :: 0 <= k < |VisibleBelow(n)| ==> |VisibleBelow(n)[k].key| >= 8
    {
      forall k | 0 <= k < |VisibleBelow(n)|
        ensures |VisibleBelow(n)[k].key| >= 8
      {
        var i := VisibleSource(n, k);
      }
    }

    lemma PairsGrow(n: nat)
      requires WellFormed() && n <= |entries|
      ensures n == 0 ==> Pairs(n) == []
      ensures n > 0 ==> Pairs(n) == Pairs(n - 1) + if Live(n - 1) then [Pair(n - 1)] else []
    {
    }

    /** The element e of a list of visible entries is shown: it is a value and the first of its key. */
    static ghost predicate Shown(compare: (bytes, bytes) -> int, vs: seq<Entry>, e: Entry)
      requires (forall i :: 0 <= i < |vs| ==> |vs[i].key| >= 8) && |e.key| >= 8
    {
      && Number(e.key) % 256 == Value.Code()
      && forall j :: 0 <= j < |vs| ==> compare(ExtractUserKey(e.key), ExtractUserKey(vs[j].key)) != 0
    }

    static lemma ViewOfStep(compare: (bytes, bytes) -> int, vs: seq<Entry>, e: Entry)
      requires (forall i :: 0 <= i < |vs| ==> |vs[i].key| >= 8) && |e.key| >= 8
      ensures ViewOf(compare, vs + [e]) ==
              ViewOf(compare, vs) + if Shown(compare, vs, e) then [(ExtractUserKey(e.key), e.value)] else []
    {
      assert (vs + [e])[..|vs|] == vs;
    }

    lemma LiveAmongVisible(i: nat)
      requires WellFormed() && i < |entries| && Visible(i)
      requires forall k :: 0 <= k < |VisibleBelow(i)| ==> |VisibleBelow(i)[k].key| >= 8
      ensures Live(i) <==> Shown(compare, VisibleBelow(i), entries[i])
    {
      hide TotalOrder;
      LiveByPosition(i);
      if Live(i) {
        forall k | 0 <= k < |VisibleBelow(i)|
          ensures compare(UserKey(i), ExtractUserKey(VisibleBelow(i)[k].key)) != 0
        {
          var j := VisibleSource(i, k);
          assert !SameKey(i, j);
        }
      }
      if Shown(compare, VisibleBelow(i), entries[i]) {
        forall j | 0 <= j < i && Visible(j)
          ensures !SameKey(i, j)
        {
          var k := VisibleIndex(i, j);
        }
      }
    }

    lemma LiveIsVisible(i: nat)
      requires WellFormed() && i < |entries|
      ensures Live(i) ==> Visible(i)
    {
    }

    lemma {:induction false} ViewFromVisible(n: nat)
      requires WellFormed() && n <= |entries|
      ensures forall k :: 0 <= k < |VisibleBelow(n)| ==> |VisibleBelow(n)[k].key| >= 8
      ensures ViewOf(compare, VisibleBelow(n)) == Pairs(n)
    {
      hide TotalOrder, Snapshot.Live, Snapshot.Pairs, Snapshot.Visible, Snapshot.Shown, Snapshot.Before, Compare;
      VisibleBelowLengths(n);
      PairsGrow(n);
      if n > 0 {
        ViewFromVisible(n - 1);
        if Visible(n - 1) {
          LiveAmongVisible(n - 1);
          ViewOfStep(compare, VisibleBelow(n - 1), entries[n - 1]);
        } else {
          LiveIsVisible(n - 1);
          assert VisibleBelow(n) == VisibleBelow(n - 1);
        }
      }
    }
  }

  /** Entries newer than the snapshot, and anything else that is not visible at it, never
      change what a reader sees. */
  lemma ViewIgnoresInvisible(s: Snapshot, t: Snapshot)
    requires s.WellFormed() && t.WellFormed() && s.compare == t.compare
    requires s.VisibleBelow(|s.entries|) == t.VisibleBelow(|t.entries|)
    ensures s.View() == t.View()
  {
    s.ViewFromVisible(|s.entries|);
    t.ViewFromVisible(|t.entries|);
  }

  datatype Op = SeekToFirst | SeekToLast | Seek(target: bytes) | Next | Prev

  /** The first position of an ascending list of pairs, from p on, whose key is at or past target. */
  function FirstAtLeast(compare: (bytes, bytes) -> int, view: seq<(bytes, bytes)>, target: bytes, p: nat): int
    requires p <= |view|
    decreases |view| - p
  {
    if p == |view| then -1
    else if compare(view[p].0, target) >= 0 then p
    else FirstAtLeast(compare, view, target, p + 1)
  }

  lemma {:induction false} FirstAtLeastIs(compare: (bytes, bytes) -> int, view: seq<(bytes, bytes)>, target: bytes,
                                          p: nat, q: nat)
    requires p <= q <= |view|
    requires forall r :: p <= r < q ==> compare(view[r].0, target) < 0
    requires q < |view| ==> compare(view[q].0, target) >= 0
    ensures FirstAtLeast(compare, view, target, p) == if q < |view| then q else -1
    decreases q - p
  {
    if p < q {
      FirstAtLeastIs(compare, view, target, p + 1, q);
    }
  }

  /** A plain cursor over a list of pairs: its position, -1 when it is not at a pair. */
  function CursorStep(compare: (bytes, bytes) -> int, view: seq<(bytes, bytes)>, p: int, op: Op): int {
    match op
    case SeekToFirst => if view == [] then -1 else 0
    case SeekToLast => |view| - 1
    case Seek(target) => FirstAtLeast(compare, view, target, 0)
    case Next => if p + 1 < |view| then p + 1 else -1
    case Prev => p - 1
  }

  /** Next and Prev may only be called when the cursor is at a pair. */
  predicate LegalRun(compare: (bytes, bytes) -> int, view: seq<(bytes, bytes)>, p: int, ops: seq<Op>)
    decreases ops
  {
    ops == [] ||
    ((ops[0].Next? || ops[0].Prev? ==> p != -1)
     && LegalRun(compare, view, CursorStep(compare, view, p, ops[0]), ops[1..]))
  }

  /** What the plain cursor shows after each operation. */
  function CursorRun(compare: (bytes, bytes) -> int, view: seq<(bytes, bytes)>, p: int, ops: seq<Op>)
    : seq<Option<(bytes, bytes)>>
    decreases ops
  {
    if ops == [] then []
    else
      var p' := CursorStep(compare, view, p, ops[0]);
      [if 0 <= p' < |view| then Some(view[p']) else None] + CursorRun(compare, view, p', ops[1..])
  }

  lemma RunUnfolds(compare: (bytes, bytes) -> int, view: seq<(bytes, bytes)>, p: int, ops: seq<Op>, k: nat,
                   shown: seq<Option<(bytes, bytes)>>)
    requires k < |ops| && LegalRun(compare, view, p, ops[k..])
    ensures var p' := CursorStep(compare, view, p, ops[k]);
            && (ops[k].Next? || ops[k].Prev? ==> p != -1)
            && LegalRun(compare, view, p', ops[k + 1..])
            && shown + CursorRun(compare, view, p, ops[k..])
               == (shown + [if 0 <= p' < |view| then Some(view[p']) else None]) + CursorRun(compare, view, p', ops[k + 1..])
  {
    assert ops[k..][0] == ops[k] && ops[k..][1..] == ops[k + 1..];
  }

  lemma RunEnds(compare: (bytes, bytes) -> int, view: seq<(bytes, bytes)>, p: int, shown: seq<Option<(bytes, bytes)>>)
    ensures shown + CursorRun(compare, view, p, []) == shown
  {
  }

  /** The cursor over all entries that DBIter drives; pos is -1 when it is not at an entry. */
  class InternalIterator {
    const compare: (bytes, bytes) -> int
    const entries: seq<Entry>
    var pos: int

    constructor (compare: (bytes, bytes) -> int, entries: seq<Entry>)
      ensures this.compare == compare && this.entries == entries && pos == -1
    {
      this.compare, this.entries, this.pos := compare, entries, -1;
    }

    predicate Valid()
      reads this
    {
      0 <= pos < |entries|
    }

    method SeekToFirst()
      modifies this
      ensures pos == if entries == [] then -1 else 0
    {
      pos := if entries == [] then -1 else 0;
    }

    method SeekToLast()
      modifies this
      ensures pos == |entries| - 1
    {
      pos := |entries| - 1;
    }

    /** Moves to the first entry at or past target. */
    method Seek(target: bytes)
      requires |target| >= 8
      requires forall i :: 0 <= i < |entries| ==> |entries[i].key| >= 8
      modifies this
      ensures -1 <= pos < |entries|
      ensures Valid() ==> Compare(compare, entries[pos].key, target) >= 0
      ensures forall i :: 0 <= i < (if Valid() then pos else |entries|) ==>
                Compare(compare, entries[i].key, target) < 0
    {
      pos := 0;
      while pos < |entries|
        invariant 0 <= pos <= |entries|
        invariant forall i :: 0 <= i < pos ==> Compare(compare, entries[i].key, target) < 0
      {
        if Compare(compare, entries[pos].key, target) >= 0 {
          return;
        }
        pos := pos + 1;
      }
      pos := -1;
    }

    method Next()
      requires Valid()
      modifies this
      ensures pos == if old(pos) + 1 < |entries| then old(pos) + 1 else -1
    {
      pos := if pos + 1 < |entries| then pos + 1 else -1;
    }

    method Prev()
      requires Valid()
      modifies this
      ensures pos == old(pos) - 1
    {
      pos := pos - 1;
    }
  }

  datatype Direction = Forward | Reverse

  class DBIter {
    const iter: InternalIterator
    const sequence: nat
    var direction: Direction
    var valid: bool
    var savedKey: bytes    // the current key when direction is Reverse
    var savedValue: bytes  // the current value when direction is Reverse
    var corrupt: bool      // status_ reports a corrupted internal key
    ghost var at: int      // index of the entry the cursor shows when valid

    ghost function Db(): Snapshot {
      Snapshot(iter.compare, iter.entries, sequence)
    }

    /** Moving forward, the internal cursor is at the entry shown. Moving backward, the shown
        pair is saved; the internal cursor is before all entries of its key, and everything
        between is invisible. */
    ghost predicate Inv()
      reads this, iter
    {
      && Db().WellFormed()
      && sequence <= MAX_SEQUENCE_NUMBER
      && -1 <= iter.pos < |iter.entries|
      && (!valid ==> direction == Forward)
      && (valid ==>
            && 0 <= at < |iter.entries| && Db().Live(at)
            && (direction == Forward ==> iter.pos == at)
            && (direction == Reverse ==>
                  && savedKey == Db().UserKey(at) && savedValue == iter.entries[at].value
                  && Db().JustBefore(iter.pos, at)))
    }

    constructor (iter: InternalIterator, sequence: nat)
      requires Snapshot(iter.compare, iter.entries, sequence).WellFormed()
      requires sequence <= MAX_SEQUENCE_NUMBER
      requires -1 <= iter.pos < |iter.entries|
      ensures Inv() && !valid
      ensures this.iter == iter && this.sequence == sequence
    {
      this.iter, this.sequence := iter, sequence;
      direction, valid, savedKey, savedValue, corrupt, at := Forward, false, [], [], false, -1;
    }

    function Key(): bytes
      requires Inv() && valid
      reads this, iter
    {
      if direction == Forward then ExtractUserKey(iter.entries[iter.pos].key) else savedKey
    }

    function Value(): bytes
      requires Inv() && valid
      reads this, iter
    {
      if direction == Forward then iter.entries[iter.pos].value else savedValue
    }

    method ParseKey() returns (key: Option<ParsedInternalKey>)
      requires iter.Valid()
      modifies this`corrupt
      ensures key == ParseInternalKey(iter.entries[iter.pos].key)
      ensures corrupt == (old(corrupt) || key.None?)
    {
      key := ParseInternalKey(iter.entries[iter.pos].key);
      if key.None? {
        corrupt := true;
      }
    }

    /** Loops until an acceptable entry to show. The key to skip is in savedKey, which all callers
        pass for it. */
    method FindNextUserEntry(skipping_: bool)
      requires Db().WellFormed() && sequence <= MAX_SEQUENCE_NUMBER
      requires iter.Valid() && direction == Forward
      requires Db().Skips(skipping_, savedKey, iter.pos)
      modifies this, iter
      ensures Inv() && direction == Forward
      ensures valid ==> old(iter.pos) <= at && !Db().Hidden(skipping_, old(savedKey), at)
      ensures forall i :: old(iter.pos) <= i < (if valid then at else |iter.entries|) && Db().Live(i) ==>
                Db().Hidden(skipping_, old(savedKey), i)
    {
      hide TotalOrder, Snapshot.Skips, Snapshot.WellFormed, Snapshot.Live, Snapshot.Visible, Snapshot.IsValue;
      hide Compare, ParseInternalKey;
      var skipping := skipping_;
      ghost var skip_ := savedKey;
      ghost var a := iter.pos;
      ghost var c := a;
      ghost var d := -1;  // the deletion being skipped, if any
      ghost var db := Db();
      db.LongKeys();
      while true
        invariant a <= c < |iter.entries| && iter.pos == c
        invariant direction == Forward
        invariant db.Skips(skipping, savedKey, c)
        invariant forall i :: c <= i < |iter.entries| && db.Hidden(skipping_, skip_, i) ==> db.Hidden(skipping, savedKey, i)
        invariant if d == -1 then (skipping, savedKey) == (skipping_, skip_)
                  else a <= d < c && db.Visible(d) && skipping && savedKey == db.UserKey(d)
        invariant forall i :: a <= i < c && db.Live(i) ==> db.Hidden(skipping_, skip_, i)
        decreases |iter.entries| - c
      {
        var ikey := ParseKey();
        db.ParsedEntry(c, ikey);
        if ikey.Some? && ikey.value.sequence <= sequence {
          match ikey.value.kind
          case Deletion =>
            db.SkipDeletion(skipping, savedKey, c);
            savedKey := ikey.value.userKey;
            skipping := true;
            d := c;
          case Value =>
            if skipping && iter.compare(ikey.value.userKey, savedKey) <= 0 {
              // The key was shown or deleted already.
              db.SkipHidden(skipping, savedKey, c);
              if d != -1 {
                db.HiddenIsNotLive(d, c);
              }
            } else {
              db.StopIsLive(skipping, savedKey, c);
              valid := true;
              savedKey := [];
              at := c;
              return;
            }
        } else {
          db.SkipInvisible(skipping, savedKey, c);
        }
        iter.Next();
        c := c + 1;
        if !iter.Valid() {
          break;
        }
      }
      savedKey := [];
      valid := false;
    }

    /** Shows the next live entry; it is the first one past the entry shown before. */
    method Next()
      requires Inv() && valid
      modifies this, iter
      ensures Inv() && direction == Forward
      ensures valid ==> old(at) < at
      ensures forall i :: old(at) < i < (if valid then at else |iter.entries|) ==> !Db().Live(i)
    {
      ghost var q, db := at, Db();
      if direction == Reverse {
        direction := Forward;
        // Step onto the first entry of the shown key.
        if !iter.Valid() {
          iter.SeekToFirst();
        } else {
          iter.Next();
        }
        if !iter.Valid() {
          assert false;  // the entries of the current key lie ahead
        }
      } else {
        savedKey := ExtractUserKey(iter.entries[iter.pos].key);
      }
      assert iter.pos <= q && savedKey == db.UserKey(q);
      db.SkipsShown(iter.pos, q);
      ghost var a := iter.pos;
      FindNextUserEntry(true);
      db.LiveByPosition(q);
      forall i | 0 <= i < |iter.entries| && db.Live(i)
        ensures db.Hidden(true, db.UserKey(q), i) <==> i <= q
      {
        db.HiddenLive(q, i);
      }
    }

    /** The loop of FindPrevUserEntry: keeps the pair of the entry that may be live, and stops when
        that is certain. */
    method ScanBackward(ghost start: int) returns (valueType: ValueType, ghost q: int)
      requires Db().WellFormed() && iter.Valid() && start == iter.pos
      modifies this`savedKey, this`savedValue, this`corrupt, iter
      ensures -1 <= iter.pos <= start && Db().Candidate(iter.pos, start, q)
      ensures valueType == Deletion <==> q == -1
      ensures q != -1 ==> iter.pos < q <= start && savedKey == Db().UserKey(q) && savedValue == iter.entries[q].value
      ensures iter.pos == -1 || (q != -1 && Db().compare(Db().UserKey(iter.pos), Db().UserKey(q)) < 0)
    {
      hide TotalOrder, Snapshot.Candidate, Snapshot.WellFormed, Snapshot.Live, Snapshot.Visible, Snapshot.IsValue;
      hide Compare, ParseInternalKey;
      valueType := Deletion;
      ghost var db, c := Db(), start;
      q := -1;
      db.LongKeys();
      db.BackStart(start);
      while true
        invariant 0 <= c <= start && iter.pos == c
        invariant db.Candidate(c, start, q)
        invariant valueType == Deletion <==> q == -1
        invariant q != -1 ==> c < q <= start && savedKey == db.UserKey(q) && savedValue == iter.entries[q].value
        decreases c
      {
        var ikey := ParseKey();
        db.ParsedEntry(c, ikey);
        if ikey.Some? && ikey.value.sequence <= sequence {
          if valueType != Deletion && iter.compare(ikey.value.userKey, savedKey) < 0 {
            // A value is saved and an earlier key begins here.
            return;
          }
          valueType := ikey.value.kind;
          if valueType == Deletion {
            savedKey := [];
            savedValue := [];
          } else {
            savedKey := ExtractUserKey(iter.entries[iter.pos].key);
            savedValue := iter.entries[iter.pos].value;
          }
          db.BackVisible(c, start, q);
          q := if db.IsValue(c) then c else -1;
        } else {
          db.BackInvisible(c, start, q);
        }
        iter.Prev();
        c := c - 1;
        if !iter.Valid() {
          return;
        }
      }
    }

    /** Scans backward from the internal cursor to the closest live entry. */
    method FindPrevUserEntry()
      requires Db().WellFormed() && sequence <= MAX_SEQUENCE_NUMBER
      requires -1 <= iter.pos < |iter.entries| && direction == Reverse
      modifies this, iter
      ensures Inv()
      ensures valid ==> direction == Reverse && at <= old(iter.pos)
      ensures forall i :: (if valid then at + 1 else 0) <= i <= old(iter.pos) ==> !Db().Live(i)
    {
      hide TotalOrder, Snapshot.Candidate, Snapshot.JustBefore, Snapshot.WellFormed, Snapshot.Live;
      var valueType := Deletion;
      ghost var q, db, start := -1, Db(), iter.pos;
      db.BackStart(start);
      if iter.Valid() {
        valueType, q := ScanBackward(start);
      }
      db.BackStop(iter.pos, start, q);
      if valueType == Deletion {
        valid := false;
        savedKey := [];
        savedValue := [];
        direction := Forward;
      } else {
        valid := true;
        at := q;
      }
    }

    /** Shows the previous live entry. */
    method Prev()
      requires Inv() && valid
      modifies this, iter
      ensures Inv()
      ensures valid ==> direction == Reverse && at < old(at)
      ensures forall i :: (if valid then at + 1 else 0) <= i < old(at) ==> !Db().Live(i)
    {
      hide TotalOrder, Snapshot.WellFormed, Snapshot.JustBefore, Snapshot.Live, Compare;
      ghost var q, db := at, Db();
      db.LongKeys();
      if direction == Forward {
        // Leave the shown key behind before scanning backward.
        savedKey := ExtractUserKey(iter.entries[iter.pos].key);
        while true
          invariant 0 <= iter.pos <= q && direction == Forward && savedKey == db.UserKey(q)
          invariant forall j :: iter.pos <= j < q ==> db.compare(db.UserKey(j), db.UserKey(q)) >= 0
          decreases iter.pos
        {
          iter.Prev();
          if !iter.Valid() {
            valid := false;
            savedKey := [];
            savedValue := [];
            db.NoLiveBetween(-1, q);
            return;
          }
          if iter.compare(ExtractUserKey(iter.entries[iter.pos].key), savedKey) < 0 {
            break;
          }
        }
        db.NoLiveBetween(iter.pos, q);
        direction := Reverse;
      } else {
        db.NoLiveBehind(iter.pos, q);
      }
      FindPrevUserEntry();
    }

    /** Shows the first live entry whose key is at or past target. */
    method Seek(target: bytes)
      requires Inv()
      modifies this, iter
      ensures Inv() && direction == Forward
      ensures valid ==> Db().compare(Db().UserKey(at), target) >= 0
      ensures forall i :: 0 <= i < (if valid then at else |iter.entries|) && Db().Live(i) ==>
                Db().compare(Db().UserKey(i), target) < 0
    {
      hide TotalOrder, Snapshot.Skips;
      ghost var db := Db();
      direction := Forward;
      savedValue := [];
      savedKey := EncodeInternalKey(ParsedInternalKey(target, sequence, VALUE_TYPE_FOR_SEEK));
      iter.Seek(savedKey);
      db.SeekSplits(target, if iter.Valid() then iter.pos else |iter.entries|, savedKey);
      if iter.Valid() {
        FindNextUserEntry(false);
      } else {
        valid := false;
      }
    }

    method SeekToFirst()
      requires Inv()
      modifies this, iter
      ensures Inv() && direction == Forward
      ensures forall i :: 0 <= i < (if valid then at else |iter.entries|) ==> !Db().Live(i)
    {
      direction := Forward;
      savedValue := [];
      iter.SeekToFirst();
      if iter.Valid() {
        FindNextUserEntry(false);
      } else {
        valid := false;
      }
    }

    method SeekToLast()
      requires Inv()
      modifies this, iter
      ensures Inv()
      ensures valid ==> direction == Reverse
      ensures forall i :: (if valid then at + 1 else 0) <= i < |iter.entries| ==> !Db().Live(i)
    {
      direction := Reverse;
      savedValue := [];
      iter.SeekToLast();
      FindPrevUserEntry();
    }

    /** Where a plain cursor over the view would be. */
    ghost function Position(): int
      requires Inv()
      reads this, iter
    {
      if valid then Db().Rank(at) else -1
    }

    lemma ShownIsInView()
      requires Inv() && valid
      ensures 0 <= Position() < |Db().View()| && (Key(), Value()) == Db().View()[Position()]
    {
      Db().RankOfLive(at);
    }

    /** One call of the iterator interface does what a plain cursor over the view does. */
    method Step(op: Op)
      requires Inv() && (op.Next? || op.Prev? ==> valid)
      modifies this, iter
      ensures Inv() && valid == (Position() != -1)
      ensures Position() == CursorStep(iter.compare, Db().View(), old(Position()), op)
      ensures valid ==> Position() < |Db().View()| && (Key(), Value()) == Db().View()[Position()]
    {
      hide TotalOrder, Snapshot.Live, Snapshot.Before, Snapshot.JustBefore, Compare, Snapshot.LiveBelow, Snapshot.View;
      ghost var db, q := Db(), at;
      match op {
        case SeekToFirst =>
          SeekToFirst();
          db.FirstPosition(0, if valid then at else |iter.entries|);
        case SeekToLast =>
          SeekToLast();
          db.LastPosition(if valid then at else -1, |iter.entries|);
        case Seek(target) =>
          Seek(target);
          db.SeekPosition(target, if valid then at else |iter.entries|);
        case Next =>
          Next();
          db.RankOfLive(q);
          db.FirstPosition(q + 1, if valid then at else |iter.entries|);
        case Prev =>
          Prev();
          db.LastPosition(if valid then at else -1, q);
      }
      if valid {
        ShownIsInView();
      }
    }

    /** Every legal run of the five operations shows exactly what a plain cursor over the
        view shows. */
    method Run(ops: seq<Op>) returns (shown: seq<Option<(bytes, bytes)>>)
      requires Inv()
      requires LegalRun(iter.compare, Db().View(), Position(), ops)
      modifies this, iter
      ensures Inv()
      ensures shown == CursorRun(iter.compare, Db().View(), old(Position()), ops)
    {
      hide TotalOrder, Snapshot.WellFormed, Snapshot.Live, Snapshot.Before, Compare, CursorStep, CursorRun, Snapshot.View;
      shown := [];
      assert ops[0..] == ops;
      ghost var view, start := Db().View(), Position();
      var k := 0;
      while k < |ops|
        invariant 0 <= k <= |ops| && Inv()
        invariant LegalRun(iter.compare, view, Position(), ops[k..])
        invariant CursorRun(iter.compare, view, start, ops) ==
                  shown + CursorRun(iter.compare, view, Position(), ops[k..])
      {
        RunUnfolds(iter.compare, view, Position(), ops, k, shown);
        Step(ops[k]);
        shown := shown + [if valid then Some((Key(), Value())) else None];
        k := k + 1;
      }
      RunEnds(iter.compare, view, Position(), shown);
    }
  }
}
