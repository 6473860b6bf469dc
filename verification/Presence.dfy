/** When the checks after the field loop fail, told by the records in the bytes: required fields
    without a record, and fixed-count arrays without all their elements. */
module Presence {
  import opened Bytes
  import opened Descriptor
  import opened Encoding
  import opened Decoding
  import opened Merging
  import opened Records

  // ---- required fields ----

  /** The tags of the records that the field loop comes to, in order. */
  function TagsRead(fs: seq<Field>, st: LoopState, s: bytes): seq<nat>
    requires |fs| == |st.slots|
    decreases |s|
  {
    if s == [] then []
    else
      match DecTag(s)
      case BadTag => []
      case EndTag(_) => []
      case GoodTag(tag, wireType, rest) =>
        match DecRecord(fs, st, tag, wireType, rest)
        case None => [tag]
        case Some((st', rest')) => [tag] + TagsRead(fs, st', rest')
  }

  /** Field i is the required field number k. */
  predicate IsRequired(fs: seq<Field>, i: nat, k: nat) {
    i < |fs| && fs[i].htype == Required && RequiredBefore(fs, i) == k
  }

  /** Required field number k has one of these tags. */
  ghost predicate HasRecord(fs: seq<Field>, k: nat, tags: seq<nat>) {
    exists i: nat :: IsRequired(fs, i, k) && fs[i].tag in tags
  }

  lemma {:induction false} RequiredNumber(fs: seq<Field>, n: nat, k: nat) returns (i: nat)
    requires n <= |fs| && k < RequiredBefore(fs, n)
    ensures i < n && IsRequired(fs, i, k)
  {
    if k < RequiredBefore(fs, n - 1) {
      i := RequiredNumber(fs, n - 1, k);
    } else {
      i := n - 1;
    }
  }

  lemma NumberIsUnique(fs: seq<Field>, i: nat, j: nat, k: nat)
    requires IsRequired(fs, i, k) && IsRequired(fs, j, k)
    ensures i == j
  {
    if i < j {
      RequiredCounts(fs, i, j);
    } else if j < i {
      RequiredCounts(fs, j, i);
    }
  }

  /** One record marks required field number k exactly when it has its tag. */
  lemma RecordMarks(fs: seq<Field>, st: LoopState, tag: nat, wireType: nat, s: bytes, k: nat)
    requires WfDesc(fs) && fs != [] && |fs| == |st.slots| && k < MAX_REQUIRED_FIELDS
    requires DecRecord(fs, st, tag, wireType, s).Some?
    ensures k in DecRecord(fs, st, tag, wireType, s).value.0.seen <==> k in st.seen || HasRecord(fs, k, [tag])
  {
    hide DecStatic, SkipField, WfDesc, RequiredBefore;
    var i := FindTag(fs, tag, 0);
    if HasRecord(fs, k, [tag]) {
      var j: nat :| IsRequired(fs, j, k) && fs[j].tag in [tag];
      FindOwnTag(fs, j);
    }
    if i < |fs| && fs[i].htype == Required && RequiredBefore(fs, i) == k {
      assert IsRequired(fs, i, k) && fs[i].tag in [tag];
    }
  }

  lemma HasRecordSplits(fs: seq<Field>, k: nat, tag: nat, tags: seq<nat>)
    ensures HasRecord(fs, k, [tag] + tags) <==> HasRecord(fs, k, [tag]) || HasRecord(fs, k, tags)
  {
    if HasRecord(fs, k, [tag] + tags) {
      var i: nat :| IsRequired(fs, i, k) && fs[i].tag in [tag] + tags;
      assert fs[i].tag in [tag] || fs[i].tag in tags;
    }
    if HasRecord(fs, k, [tag]) {
      var i: nat :| IsRequired(fs, i, k) && fs[i].tag in [tag];
      assert fs[i].tag in [tag] + tags;
    }
    if HasRecord(fs, k, tags) {
      var i: nat :| IsRequired(fs, i, k) && fs[i].tag in tags;
      assert fs[i].tag in [tag] + tags;
    }
  }

  /** The field loop has seen exactly the required fields with a record. */
  lemma {:induction false} SeenAreRecords(fs: seq<Field>, st: LoopState, s: bytes, k: nat)
    requires WfDesc(fs) && fs != [] && |fs| == |st.slots| && k < MAX_REQUIRED_FIELDS
    requires DecLoop(fs, st, s).Some?
    ensures k in DecLoop(fs, st, s).value.0.seen <==> k in st.seen || HasRecord(fs, k, TagsRead(fs, st, s))
    decreases |s|
  {
    hide DecTag, DecRecord, HasRecord, WfDesc;
    if s == [] || !DecTag(s).GoodTag? {
      NoRecord(fs, k);
    } else {
      var GoodTag(tag, wireType, rest) := DecTag(s);
      var (st', rest') := DecRecord(fs, st, tag, wireType, rest).value;
      RecordMarks(fs, st, tag, wireType, rest, k);
      SeenAreRecords(fs, st', rest', k);
      HasRecordSplits(fs, k, tag, TagsRead(fs, st', rest'));
    }
  }

  lemma NoRecord(fs: seq<Field>, k: nat)
    ensures !HasRecord(fs, k, [])
  {
  }

  /** Every required field that is tracked has a record. */
  predicate RequiredPresent(fs: seq<Field>, tags: seq<nat>) {
    forall i: nat :: i < |fs| && fs[i].htype == Required && RequiredBefore(fs, i) < 64 ==> fs[i].tag in tags
  }

  lemma PresentIffSeen(fs: seq<Field>, seen: set<nat>, tags: seq<nat>)
    requires forall k: nat :: k < MAX_REQUIRED_FIELDS ==> (k in seen <==> HasRecord(fs, k, tags))
    ensures RequiredSeen(fs, seen) <==> RequiredPresent(fs, tags)
  {
    hide RequiredBefore;
    if RequiredSeen(fs, seen) {
      forall i: nat | i < |fs| && fs[i].htype == Required && RequiredBefore(fs, i) < 64
        ensures fs[i].tag in tags
      {
        var k := RequiredBefore(fs, i);
        RequiredCounts(fs, i, |fs|);
        assert k in seen;
        var j: nat :| IsRequired(fs, j, k) && fs[j].tag in tags;
        NumberIsUnique(fs, i, j, k);
      }
    }
    if RequiredPresent(fs, tags) {
      forall k: nat | k < RequiredBefore(fs, |fs|) && k < MAX_REQUIRED_FIELDS
        ensures k in seen
      {
        var i := RequiredNumber(fs, |fs|, k);
        assert IsRequired(fs, i, k) && fs[i].tag in tags;
      }
    }
  }

  /** For every byte string: decoding succeeds exactly when the records decode, the last fixed-count
      array is complete, and each of the first 64 required fields has a record. */
  lemma RequiredFieldsChecked(fs: seq<Field>, cur: seq<Slot>, s: bytes)
    requires WfDesc(fs) && |fs| == |cur|
    ensures var r := DecLoop(fs, StartState(cur), s);
            NoInit(fs, cur, s).Some? <==>
              r.Some? && FixedComplete(fs, r.value.0) && RequiredPresent(fs, TagsRead(fs, StartState(cur), s))
  {
    hide DecLoop, TagsRead, RequiredSeen, RequiredPresent, HasRecord, WfDesc;
    var st, r := StartState(cur), DecLoop(fs, StartState(cur), s);
    if r.Some? {
      if fs == [] {
        NothingRequired(fs, r.value.0.seen, TagsRead(fs, st, s));
      } else {
        forall k: nat | k < MAX_REQUIRED_FIELDS
          ensures k in r.value.0.seen <==> HasRecord(fs, k, TagsRead(fs, st, s))
        {
          SeenAreRecords(fs, st, s, k);
        }
        PresentIffSeen(fs, r.value.0.seen, TagsRead(fs, st, s));
      }
    }
  }

  lemma NothingRequired(fs: seq<Field>, seen: set<nat>, tags: seq<nat>)
    requires fs == []
    ensures RequiredSeen(fs, seen) && RequiredPresent(fs, tags)
  {
  }

  /** A required field whose tag does not occur makes decoding fail. */
  lemma MissingRequiredFails(fs: seq<Field>, cur: seq<Slot>, s: bytes, i: nat)
    requires WfDesc(fs) && |fs| == |cur| && i < |fs| && fs[i].htype == Required && RequiredBefore(fs, i) < 64
    requires fs[i].tag !in TagsRead(fs, StartState(cur), s)
    ensures NoInit(fs, cur, s).None?
  {
    hide DecLoop, TagsRead, NoInit, WfDesc;
    RequiredFieldsChecked(fs, cur, s);
  }

  /** In particular no bytes at all are a message only of types without required fields. */
  lemma EmptyInput(fs: seq<Field>)
    requires WfDesc(fs)
    ensures Decode(fs, []).Some? <==> forall i :: 0 <= i < |fs| ==> fs[i].htype != Required
  {
    hide NoInit, WfDesc, RequiredBefore;
    RequiredFieldsChecked(fs, DefaultMsg(fs, 0), []);
    assert TagsRead(fs, StartState(DefaultMsg(fs, 0)), []) == [];
    if i: nat :| i < |fs| && fs[i].htype == Required {
      RequiredCounts(fs, i, |fs|);
      var first := RequiredNumber(fs, |fs|, 0);
      assert fs[first].tag !in [];
    }
  }

  // ---- fixed-count arrays ----

  /** What is left of a message when all its records were elements vs of array field i. */
  lemma OnlyArray(fs: seq<Field>, i: nat, cur: seq<Slot>, vs: seq<Value>, s: bytes)
    requires i < |fs| == |cur| && RequiredBefore(fs, |fs|) == 0 && fs[i].htype == Repeated && fs[i].sizeOffset == 0
    requires DecLoop(fs, StartState(cur), s) == Continue(fs, Receive(fs, i, StartState(cur), vs), [])
    ensures NoInit(fs, cur, s).Some? <==> |vs| == fs[i].arraySize
  {
    hide DecLoop, SlotOf, RequiredBefore, FixedItems, Overwrite;
    LoopAtEnd(fs, Receive(fs, i, StartState(cur), vs));
  }

  /** Elements of a fixed-count array, in packed runs and singly: accepted exactly when all arrive. */
  lemma FixedCountExact(fs: seq<Field>, i: nat, cur: seq<Slot>, cs: seq<Chunk>)
    requires WfDesc(fs) && i < |fs| == |cur| && RequiredBefore(fs, |fs|) == 0
    requires fs[i].htype == Repeated && fs[i].sizeOffset == 0 && fs[i].ltype.Packable()
    requires forall k :: 0 <= k < |cs| ==> TypedItems(fs[i], cs[k].Elements())
    requires cs != [] && Addressable(EncChunks(fs[i], cs)) && AllReadable(fs[i], cs)
    ensures NoInit(fs, cur, EncChunks(fs[i], cs).value).Some? <==> |ElementsOf(cs)| == fs[i].arraySize
  {
    hide DecLoop, NoInit, EncChunks, WfDesc, RequiredBefore, ElementsOf;
    var e := EncChunks(fs[i], cs).value;
    ChunksMerge(fs, i, StartState(cur), cs, []);
    assert e + [] == e;
    OnlyArray(fs, i, cur, ElementsOf(cs), e);
  }

  /** The same for arrays that are never packed. */
  lemma FixedCountExactUnpacked(fs: seq<Field>, i: nat, cur: seq<Slot>, items: seq<Value>)
    requires WfDesc(fs) && i < |fs| == |cur| && RequiredBefore(fs, |fs|) == 0
    requires fs[i].htype == Repeated && fs[i].sizeOffset == 0
    requires items != [] && TypedItems(fs[i], items) && Addressable(EncUnpacked(fs[i], items))
    requires MergeItems(fs[i], items).Some?
    ensures NoInit(fs, cur, EncUnpacked(fs[i], items).value).Some? <==> |items| == fs[i].arraySize
  {
    hide DecLoop, NoInit, EncUnpacked, WfDesc, RequiredBefore;
    var e := EncUnpacked(fs[i], items).value;
    UnpackedMerges(fs, i, StartState(cur), items, []);
    assert e + [] == e;
    OnlyArray(fs, i, cur, MergeItems(fs[i], items).value, e);
  }

  /** A second fixed-count array may not begin before the first is complete. */
  lemma SwitchNeedsCompleteArray(fs: seq<Field>, i: nat, j: nat, cur: seq<Slot>, cs: seq<Chunk>, c: Chunk, t: bytes)
    requires WfDesc(fs) && i < |fs| == |cur| && j < |fs| && i != j
    requires fs[i].FixedCount() && fs[i].ltype.Packable() && fs[j].FixedCount() && fs[j].ltype.Packable()
    requires forall k :: 0 <= k < |cs| ==> TypedItems(fs[i], cs[k].Elements())
    requires cs != [] && Addressable(EncChunks(fs[i], cs)) && |ElementsOf(cs)| != fs[i].arraySize
    requires TypedItems(fs[j], c.Elements()) && Addressable(EncChunk(fs[j], c))
    ensures NoInit(fs, cur, EncChunks(fs[i], cs).value + (EncChunk(fs[j], c).value + t)).None?
  {
    hide DecLoop, EncChunks, EncChunk, WfDesc, ElementsOf, SlotOf, FixedItems, Overwrite;
    var st := StartState(cur);
    ChunksMerge(fs, i, st, cs, EncChunk(fs[j], c).value + t);
    var r := Receive(fs, i, st, ElementsOf(cs));
    if r.Some? {
      ChunkMerges(fs, j, r.value, c, t);
    }
  }
}
