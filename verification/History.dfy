/** The live view against the history of a database: what DBIter shows at a snapshot is the map that
    replaying the writes up to the snapshot gives. */
module History {
  import opened Bytes
  import opened Comparators
  import opened DbFormat
  import opened DbIter

  /** One write; the writes of a history have the sequence numbers 1, 2, 3 and so on. */
  datatype Write = Put(key: bytes, value: bytes) | Delete(key: bytes)

  /** The entry that write number n leaves in the database. */
  function EntryOf(history: seq<Write>, n: nat): Entry
    requires n < |history| <= MAX_SEQUENCE_NUMBER
  {
    match history[n]
    case Put(k, v) => Entry(EncodeInternalKey(ParsedInternalKey(k, n + 1, Value)), v)
    case Delete(k) => Entry(EncodeInternalKey(ParsedInternalKey(k, n + 1, Deletion)), [])
  }

  /** The first s writes, applied to an empty map. */
  function Replay(history: seq<Write>, s: nat): map<bytes, bytes>
    requires s <= |history|
  {
    if s == 0 then map[]
    else
      match history[s - 1]
      case Put(k, v) => Replay(history, s - 1)[k := v]
      case Delete(k) => Replay(history, s - 1) - {k}
  }

  /** The database holds the entries of all writes and nothing else. */
  ghost predicate Stores(db: Snapshot, history: seq<Write>) {
    && |history| <= MAX_SEQUENCE_NUMBER
    && (forall n: nat :: n < |history| ==> EntryOf(history, n) in db.entries)
    && (forall i :: 0 <= i < |db.entries| ==> FromHistory(history, db.entries[i]))
  }

  ghost predicate FromHistory(history: seq<Write>, e: Entry)
    requires |history| <= MAX_SEQUENCE_NUMBER
  {
    exists n: nat :: n < |history| && e == EntryOf(history, n)
  }

  /** Keys are equal only when they are the same bytes. */
  ghost predicate Distinguishes(compare: (bytes, bytes) -> int) {
    forall a, b :: compare(a, b) == 0 <==> a == b
  }

  /** The last of the first s writes to key k, which is in the map after them. */
  lemma {:induction false} LastPut(history: seq<Write>, s: nat, k: bytes) returns (n: nat)
    requires s <= |history| && k in Replay(history, s)
    ensures n < s && history[n] == Put(k, Replay(history, s)[k])
    ensures forall j :: n < j < s ==> history[j].key != k
  {
    if history[s - 1].key == k {
      n := s - 1;
    } else {
      n := LastPut(history, s - 1, k);
    }
  }

  lemma {:induction false} PutStays(history: seq<Write>, s: nat, n: nat)
    requires n < s <= |history| && history[n].Put?
    requires forall j :: n < j < s ==> history[j].key != history[n].key
    ensures history[n].key in Replay(history, s) && Replay(history, s)[history[n].key] == history[n].value
  {
    if n < s - 1 {
      PutStays(history, s - 1, n);
    }
  }

  lemma EntryParses(history: seq<Write>, n: nat)
    requires n < |history| <= MAX_SEQUENCE_NUMBER
    ensures var e, w := EntryOf(history, n), history[n];
            && ParseInternalKey(e.key) == Some(ParsedInternalKey(w.key, n + 1, if w.Put? then Value else Deletion))
            && |e.key| >= 8 && ExtractUserKey(e.key) == w.key
            && Number(e.key) == (n + 1) * 256 + (if w.Put? then 1 else 0)
            && (w.Put? ==> e.value == w.value)
  {
    hide EncodeInternalKey, ParseInternalKey, Number;
    var w := history[n];
    var p := ParsedInternalKey(w.key, n + 1, if w.Put? then Value else Deletion);
    InternalKeyRoundTrip(p);
    NumberOfEncoded(p);
  }

  /** The number of writes that a snapshot covers. */
  function Covered(history: seq<Write>, sequence: nat): (s: nat)
    ensures s <= |history|
  {
    if sequence < |history| then sequence else |history|
  }

  /** The entry of write n is live exactly when the write is a put at or before the snapshot, and no
      later one up to the snapshot is to the same key. */
  lemma LiveIffLast(db: Snapshot, history: seq<Write>, i: int, n: nat)
    requires db.WellFormed() && Stores(db, history) && Distinguishes(db.compare)
    requires 0 <= i < |db.entries| && n < |history| && db.entries[i] == EntryOf(history, n)
    ensures db.Live(i) <==>
              && n < Covered(history, db.sequence) && history[n].Put?
              && forall j :: n < j < Covered(history, db.sequence) ==> history[j].key != history[n].key
  {
    hide EncodeInternalKey, ParseInternalKey, Number, Snapshot.Before, TotalOrder, EntryOf;
    EntryParses(history, n);
    var s := Covered(history, db.sequence);
    if db.Live(i) {
      forall j | n < j < s
        ensures history[j].key != history[n].key
      {
        EntryParses(history, j);
        assert EntryOf(history, j) in db.entries;
        var at :| 0 <= at < |db.entries| && db.entries[at] == EntryOf(history, j);
        assert db.Visible(at);
        assert db.SameKey(i, at) <==> history[j].key == history[n].key;
      }
    }
    if n < s && history[n].Put? && forall j :: n < j < s ==> history[j].key != history[n].key {
      forall at | 0 <= at < |db.entries| && db.Visible(at) && db.SameKey(i, at)
        ensures Number(db.entries[at].key) <= Number(db.entries[i].key)
      {
        assert FromHistory(history, db.entries[at]);
        var j: nat :| j < |history| && db.entries[at] == EntryOf(history, j);
        EntryParses(history, j);
      }
    }
  }

  /** For every history and every snapshot: the view has exactly the keys and values that are in the
      map after the writes up to the snapshot. */
  lemma ViewIsReplay(db: Snapshot, history: seq<Write>, k: bytes, v: bytes)
    requires db.WellFormed() && Stores(db, history) && Distinguishes(db.compare)
    ensures var m := Replay(history, Covered(history, db.sequence));
            (k, v) in db.View() <==> k in m && m[k] == v
  {
    hide EncodeInternalKey, ParseInternalKey, Number, TotalOrder, EntryOf, Replay;
    hide Snapshot.Live, Snapshot.View, Snapshot.Before;
    var s := Covered(history, db.sequence);
    var m := Replay(history, s);
    if (k, v) in db.View() {
      var p :| 0 <= p < |db.View()| && db.View()[p] == (k, v);
      ViewEntry(db, p);
      var i := db.LiveAtRank(|db.entries|, p);
      db.RankOfLive(i);
      assert FromHistory(history, db.entries[i]);
      var n: nat :| n < |history| && db.entries[i] == EntryOf(history, n);
      EntryParses(history, n);
      LiveIffLast(db, history, i, n);
      PutStays(history, s, n);
    }
    if k in m && m[k] == v {
      var n := LastPut(history, s, k);
      EntryParses(history, n);
      assert EntryOf(history, n) in db.entries;
      var i :| 0 <= i < |db.entries| && db.entries[i] == EntryOf(history, n);
      LiveIffLast(db, history, i, n);
      db.RankOfLive(i);
    }
  }

  lemma ViewEntry(db: Snapshot, p: int)
    requires db.WellFormed() && 0 <= p < |db.View()|
    ensures p < db.Rank(|db.entries|)
  {
  }

  // ---- every history has a database ----

  predicate LongKeys(entries: seq<Entry>) {
    forall i :: 0 <= i < |entries| ==> |entries[i].key| >= 8
  }

  predicate Sorted(user: (bytes, bytes) -> int, entries: seq<Entry>)
    requires LongKeys(entries)
  {
    forall i, j :: 0 <= i < j < |entries| ==> Compare(user, entries[i].key, entries[j].key) < 0
  }

  function Insert(user: (bytes, bytes) -> int, e: Entry, entries: seq<Entry>): (r: seq<Entry>)
    requires |e.key| >= 8 && LongKeys(entries)
    ensures LongKeys(r)
    ensures forall x :: x in r <==> x == e || x in entries
  {
    if entries == [] then [e]
    else if Compare(user, e.key, entries[0].key) < 0 then [e] + entries
    else
      assert forall x :: x in entries <==> x == entries[0] || x in entries[1..];
      [entries[0]] + Insert(user, e, entries[1..])
  }

  lemma {:induction false} InsertKeepsOrder(user: (bytes, bytes) -> int, e: Entry, entries: seq<Entry>)
    requires TotalOrder(user) && |e.key| >= 8 && LongKeys(entries) && Sorted(user, entries)
    requires forall i :: 0 <= i < |entries| ==> Compare(user, e.key, entries[i].key) != 0
    ensures Sorted(user, Insert(user, e, entries))
  {
    hide Compare, TotalOrder;
    if entries != [] {
      var first := entries[0];
      CompareIsTotal(user, e.key, first.key, first.key);
      if Compare(user, e.key, first.key) < 0 {
        forall i | 0 <= i < |entries|
          ensures Compare(user, e.key, entries[i].key) < 0
        {
          if i > 0 {
            CompareIsTotal(user, e.key, first.key, entries[i].key);
          }
        }
      } else {
        CompareIsTotal(user, first.key, e.key, e.key);
        InsertKeepsOrder(user, e, entries[1..]);
        var r := Insert(user, e, entries[1..]);
        forall j | 0 <= j < |r|
          ensures Compare(user, first.key, r[j].key) < 0
        {
          assert r[j] in r;
        }
      }
    }
  }

  /** The entries of the first n writes, in internal key order. */
  function DatabaseOf(user: (bytes, bytes) -> int, history: seq<Write>, n: nat): (r: seq<Entry>)
    requires n <= |history| <= MAX_SEQUENCE_NUMBER
    ensures LongKeys(r)
  {
    if n == 0 then []
    else
      EntryParses(history, n - 1);
      Insert(user, EntryOf(history, n - 1), DatabaseOf(user, history, n - 1))
  }

  /** The entries of two writes are never at the same place. */
  lemma WritesDiffer(user: (bytes, bytes) -> int, history: seq<Write>, n: nat, j: nat)
    requires j < n < |history| <= MAX_SEQUENCE_NUMBER
    ensures |EntryOf(history, n).key| >= 8 && |EntryOf(history, j).key| >= 8
    ensures Compare(user, EntryOf(history, n).key, EntryOf(history, j).key) != 0
  {
    hide EntryOf, Number;
    EntryParses(history, n);
    EntryParses(history, j);
  }

  lemma {:induction false} DatabaseIsSorted(user: (bytes, bytes) -> int, history: seq<Write>, n: nat)
    requires TotalOrder(user) && n <= |history| <= MAX_SEQUENCE_NUMBER
    ensures Sorted(user, DatabaseOf(user, history, n))
    ensures forall x :: x in DatabaseOf(user, history, n) <==> exists j: nat :: j < n && x == EntryOf(history, j)
  {
    hide EntryOf, TotalOrder, Compare;
    if n > 0 {
      DatabaseIsSorted(user, history, n - 1);
      var e, entries := EntryOf(history, n - 1), DatabaseOf(user, history, n - 1);
      EntryParses(history, n - 1);
      forall i | 0 <= i < |entries|
        ensures Compare(user, e.key, entries[i].key) != 0
      {
        assert entries[i] in entries;
        var j: nat :| j < n - 1 && entries[i] == EntryOf(history, j);
        WritesDiffer(user, history, n - 1, j);
      }
      InsertKeepsOrder(user, e, entries);
    }
  }

  /** So the database of a history can always be read at any snapshot. */
  lemma HistoryHasDatabase(user: (bytes, bytes) -> int, history: seq<Write>, sequence: nat)
    requires TotalOrder(user) && |history| <= MAX_SEQUENCE_NUMBER
    ensures var db := Snapshot(user, DatabaseOf(user, history, |history|), sequence);
            db.WellFormed() && Stores(db, history)
  {
    hide EntryOf, DatabaseOf, Compare, TotalOrder;
    DatabaseIsSorted(user, history, |history|);
    var db := Snapshot(user, DatabaseOf(user, history, |history|), sequence);
    forall n: nat | n < |history|
      ensures EntryOf(history, n) in db.entries
    {
    }
    forall i | 0 <= i < |db.entries|
      ensures FromHistory(history, db.entries[i])
    {
      assert db.entries[i] in db.entries;
    }
  }

  /** The builtin comparator tells all keys apart. */
  lemma BytewiseDistinguishes()
    ensures Distinguishes(BytewiseCompare)
  {
    forall a, b
      ensures BytewiseCompare(a, b) == 0 <==> a == b
    {
      BytewiseAntisymmetric(a, b);
    }
  }
}
