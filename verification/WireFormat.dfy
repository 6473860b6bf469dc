/** What receivers other than our own decoder see in an encoding: keys, payload kinds and record
    boundaries, by the numbers of the Protocol Buffers Encoding specification. */
module WireFormat {
  import opened Bytes
  import opened Integers
  import opened Varint
  import opened Descriptor
  import opened Encoding
  import opened Decoding
  import opened Merging
  import opened RoundTrip
  import opened Records
  import opened UnknownFields

  // ---- keys ----

  /** The wire type the specification gives each data type. */
  function KeyNumber(l: LType): (n: nat)
    ensures n < 8
  {
    match l
    case Fixed64 => 1
    case Bytes => 2
    case String => 2
    case Submessage => 2
    case FixedLengthBytes => 2
    case Fixed32 => 5
    case _ => 0
  }

  /** The key of a field: its number, and the wire type in the low three bits. */
  lemma KeyBytes(l: LType, tag: nat)
    requires 1 <= tag <= MAX_TAG
    ensures EncTag(WireType(l), tag) == EncVarint(8 * tag + KeyNumber(l))
    ensures tag <= 15 ==> EncTag(WireType(l), tag) == [8 * tag + KeyNumber(l)]
  {
    hide EncVarint;
    var n := 8 * tag + KeyNumber(l);
    SmallMod(n, TWO_TO_THE_64);
    if tag <= 15 {
      OneByte(n);
    }
  }

  lemma OneByte(v: nat)
    requires v < 128
    ensures EncVarint(v) == [v]
  {
  }

  // ---- payloads ----

  /** The wire type of a key says how long the payload is: a receiver that does not know the field
      skips exactly its data item, whatever follows. */
  lemma PayloadIsSkipped(f: Field, v: Value, t: bytes)
    requires FieldOk(f) && TypedValue(f, v) && EncValue(f, v).Some?
    requires f.ltype == Submessage ==> ShortChunk(EncFields(f.sub, 0, v.slots))
    ensures SkipField(KeyNumber(f.ltype), EncValue(f, v).value + t) == Some(t)
  {
    hide SkipField, EncFields, EncVarint, EncLength;
    var e := EncValue(f, v).value;
    if f.ltype == Submessage {
      ChunkIsSkipped(EncFields(f.sub, 0, v.slots).value);
    } else if KeyNumber(f.ltype) == 2 {
      ChunkIsSkipped(v.bs);
    } else if KeyNumber(f.ltype) == 0 {
      VarintIsSkipped(f, v);
    } else {
      FixedIsSkipped(e, KeyNumber(f.ltype));
    }
    SkipFieldStable(KeyNumber(f.ltype), e, t);
    assert [] + t == t;
  }

  lemma ChunkIsSkipped(bs: bytes)
    requires |bs| < TWO_TO_THE_32
    ensures SkipField(2, EncLength(|bs|) + bs) == Some([])
  {
    hide EncLength, DecChunk;
    ChunkRoundTrip(bs, []);
    assert EncLength(|bs|) + bs + [] == EncLength(|bs|) + bs;
  }

  lemma VarintIsSkipped(f: Field, v: Value)
    requires KeyNumber(f.ltype) == 0 && TypedValue(f, v) && EncScalar(f, v).Some?
    ensures SkipField(0, EncScalar(f, v).value) == Some([])
  {
    hide EncVarint, SkipVarint;
    var n := if f.ltype == Bool then (if v.n != 0 then 1 else 0)
             else if f.ltype == SVarint then ZigZag(ToSigned(v.n, 8)) else ToUnsigned(v.n, 8);
    EncIsRun(n);
    SkipRun(EncVarint(n));
  }

  lemma FixedIsSkipped(e: bytes, wireType: nat)
    requires (wireType == 1 && |e| == 8) || (wireType == 5 && |e| == 4)
    ensures SkipField(wireType, e) == Some([])
  {
  }

  /** Every element an encoder writes is a skippable record for message types without its tag. */
  lemma ElementIsUnknown(gs: seq<Field>, f: Field, v: Value)
    requires FieldOk(f) && TypedValue(f, v) && EncTagged(f, v).Some? && FindTag(gs, f.tag, 0) == |gs|
    requires f.ltype == Submessage ==> ShortChunk(EncFields(f.sub, 0, v.slots))
    ensures UnknownRecord(gs, EncTagged(f, v).value)
  {
    hide SkipField, EncFields, EncTag, EncScalar, EncVarint, EncLength, UnknownRecord, EncValue;
    PayloadIsSkipped(f, v, []);
    var e := EncValue(f, v).value;
    assert e + [] == e;
    WireTypeNumber(f.ltype);
    UnknownTag(gs, WireType(f.ltype), f.tag, e);
  }

  lemma WireTypeNumber(l: LType)
    ensures WireType(l) == KeyNumber(l)
  {
  }

  /** Arrays of numbers are packed, in one record for all elements; arrays of anything that already
      has a length are a record for each element. */
  lemma NumbersArePacked(f: Field, items: seq<Value>)
    requires FieldOk(f) && items != [] && |items| <= f.arraySize
    ensures KeyNumber(f.ltype) == 2 ==> EncArray(f, items) == EncUnpacked(f, items)
    ensures KeyNumber(f.ltype) != 2 ==>
              EncArray(f, items) == Join(Some(EncVarint(8 * f.tag + 2)), WithLength(EncPacked(f, items)))
  {
    hide EncVarint, EncPacked, EncUnpacked, EncLength, EncTag;
    KeyBytes(String, f.tag);
  }

  // ---- whole messages ----

  /** No field of fs has a tag that gs knows. */
  predicate Foreign(gs: seq<Field>, fs: seq<Field>) {
    forall i :: 0 <= i < |fs| ==> FindTag(gs, fs[i].tag, 0) == |gs|
  }

  /** The encoding of a readable message is skipped, record by record, by a receiver that knows none
      of its fields. */
  lemma {:induction false} ForeignIsSkipped(gs: seq<Field>, st: LoopState, fs: seq<Field>, i: nat, m: seq<Slot>, t: bytes)
    requires WfDesc(fs) && Foreign(gs, fs) && |st.slots| == |gs| && i <= |fs| == |m|
    requires TypedMsg(fs, i, m) && EncFields(fs, i, m).Some? && ReadableFields(fs, i, m)
    ensures DecLoop(gs, st, EncFields(fs, i, m).value + t) == DecLoop(gs, st, t)
    decreases |fs| - i
  {
    hide DecLoop, WfDesc, EncSlot, TypedSlot, ReadableSlot, SlotOf;
    if i == |fs| {
      assert [] + t == t;
    } else {
      WfDescField(fs, i);
      var e, later := EncSlot(fs[i], m[SlotOf(fs, i)]).value, EncFields(fs, i + 1, m).value;
      assert EncFields(fs, i, m).value + t == e + (later + t);
      assert FindTag(gs, fs[i].tag, 0) == |gs|;
      ForeignSlotIsSkipped(gs, st, fs[i], m[SlotOf(fs, i)], later + t);
      ForeignIsSkipped(gs, st, fs, i + 1, m, t);
    }
  }

  lemma ForeignSlotIsSkipped(gs: seq<Field>, st: LoopState, f: Field, s: Slot, t: bytes)
    requires WfField(f) && FindTag(gs, f.tag, 0) == |gs| && |st.slots| == |gs|
    requires TypedSlot(f, s) && EncSlot(f, s).Some? && ReadableSlot(f, s)
    ensures DecLoop(gs, st, EncSlot(f, s).value + t) == DecLoop(gs, st, t)
  {
    hide DecLoop, TypedValue, EncTagged, EncPacked, EncUnpacked, EncTag, EncLength;
    hide ReadableValue, ReadableItems, IsZeroValue, FindTag, UnknownRecord;
    if f.htype == Repeated {
      if s.items == [] {
        assert [] + t == t;
      } else if f.ltype.Packable() {
        PackedIsUnknown(gs, f, s.items);
        UnknownIsSkipped(gs, st, EncArray(f, s.items).value, t);
      } else {
        ForeignItemsAreSkipped(gs, st, f, s.items, t);
      }
    } else if Emitted(f, s) {
      if f.ltype == Submessage {
        ReadableIsShort(f, s.v);
      }
      ElementIsUnknown(gs, f, s.v);
      UnknownIsSkipped(gs, st, EncTagged(f, s.v).value, t);
    } else {
      assert [] + t == t;
    }
  }

  lemma ReadableIsShort(f: Field, v: Value)
    requires ReadableValue(f, v) && f.ltype == Submessage
    ensures v.Msg? && |v.slots| == |f.sub| && ShortChunk(EncFields(f.sub, 0, v.slots))
  {
    hide EncFields, ReadableFields;
  }

  lemma PackedIsUnknown(gs: seq<Field>, f: Field, items: seq<Value>)
    requires FieldOk(f) && f.ltype.Packable() && items != [] && FindTag(gs, f.tag, 0) == |gs|
    requires EncArray(f, items).Some? && ShortChunk(EncPacked(f, items))
    ensures UnknownRecord(gs, EncArray(f, items).value)
  {
    hide EncPacked, EncTag, EncLength, SkipField, FindTag, UnknownRecord;
    var p := EncPacked(f, items).value;
    ChunkIsSkipped(p);
    UnknownTag(gs, 2, f.tag, EncLength(|p|) + p);
  }

  lemma {:induction false} ForeignItemsAreSkipped(gs: seq<Field>, st: LoopState, f: Field, items: seq<Value>, t: bytes)
    requires WfField(f) && FindTag(gs, f.tag, 0) == |gs| && |st.slots| == |gs|
    requires TypedItems(f, items) && EncUnpacked(f, items).Some? && ReadableItems(f, items)
    ensures DecLoop(gs, st, EncUnpacked(f, items).value + t) == DecLoop(gs, st, t)
  {
    hide DecLoop, TypedValue, EncTagged, ReadableValue, FindTag, UnknownRecord;
    if items == [] {
      assert [] + t == t;
    } else {
      var e, later := EncTagged(f, items[0]).value, EncUnpacked(f, items[1..]).value;
      assert EncUnpacked(f, items).value + t == e + (later + t);
      if f.ltype == Submessage {
        ReadableIsShort(f, items[0]);
      }
      ElementIsUnknown(gs, f, items[0]);
      UnknownIsSkipped(gs, st, e, later + t);
      ForeignItemsAreSkipped(gs, st, f, items[1..], t);
    }
  }

  /** A newer sender adds fields: the part of its encoding that an older receiver knows decodes as
      if the new fields were not there. */
  lemma NewerSender(fs: seq<Field>, cur: seq<Slot>, m: seq<Slot>, es: seq<Field>, em: seq<Slot>)
    requires WfDesc(fs) && |fs| == |cur| == |m| && TypedMsg(fs, 0, m) && Addressable(Enc(fs, m))
    requires WfDesc(es) && |es| == |em| && TypedMsg(es, 0, em) && Enc(es, em).Some? && ReadableFields(es, 0, em)
    requires Foreign(fs, es)
    ensures NoInit(fs, cur, Enc(fs, m).value + Enc(es, em).value) == NoInit(fs, cur, Enc(fs, m).value)
    ensures NoInit(fs, cur, Enc(es, em).value + Enc(fs, m).value) == NoInit(fs, cur, Enc(fs, m).value)
  {
    hide DecLoop, MergeLoop, EncFields, WfDesc, TypedMsg, ReadableFields, Foreign;
    var a, b, st := Enc(fs, m).value, Enc(es, em).value, StartState(cur);
    LoopMerges(fs, 0, st, m, b);
    LoopMerges(fs, 0, st, m, []);
    assert a + [] == a && b + [] == b;
    var r := MergeLoop(fs, 0, st, m);
    if r.Some? {
      ForeignIsSkipped(fs, r.value, es, 0, em, []);
    }
    ForeignIsSkipped(fs, st, es, 0, em, a);
  }

  // ---- what the decoder does not look at, and what it rejects ----

  /** The wire type of a known field only tells packed arrays from single elements. */
  lemma WireTypeIgnored(fs: seq<Field>, i: nat, st: LoopState, wt1: nat, wt2: nat, s: bytes)
    requires i < |fs| == |st.slots|
    requires fs[i].htype == Repeated && fs[i].ltype.Packable() ==> (wt1 == 2 <==> wt2 == 2)
    ensures DecField(fs, i, st, wt1, s) == DecField(fs, i, st, wt2, s)
  {
    hide DecValue, DecPacked, DecChunk, Append, EnterField;
  }

  /** Groups and the wire types without a meaning cannot be skipped. */
  lemma BadWireTypeRejected(fs: seq<Field>, st: LoopState, tag: nat, wireType: nat, t: bytes)
    requires |fs| == |st.slots| && 1 <= tag <= MAX_TAG && FindTag(fs, tag, 0) == |fs|
    requires wireType == 3 || wireType == 4 || wireType == 6 || wireType == 7
    ensures DecLoop(fs, st, EncTag(wireType, tag) + t).None?
  {
    hide DecTag, EncTag, FindTag, DecChunk;
    TagRoundTrip(wireType, tag, t);
  }

  /** In a message type without fields, tag 0 finds the terminator of the field table, whatever the
      wire type, and a 32-bit varint is read. */
  lemma TagZeroOfEmptyType(st: LoopState, wireType: nat, run: bytes, t: bytes)
    requires st.slots == [] && IsRun(run) && GroupSum(run) < TWO_TO_THE_32
    ensures DecRecord([], st, 0, wireType, run + t) == Some((st.(seen := st.seen + {0}), t))
  {
    hide Dec32, SkipField;
    RunDecodes32(run, t);
  }

  /** A record that is cut short anywhere makes decoding fail. */
  lemma TruncatedRecordFails(fs: seq<Field>, st: LoopState, u: bytes, n: nat)
    requires |fs| == |st.slots| && 0 < n < |u| && DecTag(u).GoodTag?
    requires var GoodTag(tag, wireType, s) := DecTag(u);
             var r := DecRecord(fs, st, tag, wireType, s);
             r.Some? && r.value.1 == []
    ensures DecLoop(fs, st, u[..n]).None?
  {
    hide Dec32, DecRecord;
    var a, b := u[..n], u[n..];
    assert a + b == u && b != [];
    if !DecTag(a).BadTag? {
      DecTagStable(a, b);
    }
    if DecTag(a).GoodTag? {
      var GoodTag(tag, wireType, s) := DecTag(a);
      if DecRecord(fs, st, tag, wireType, s).Some? {
        DecRecordStable(fs, st, tag, wireType, s, b);
      }
    }
  }

  /** Nor does the rest of a message help: after whole records, a cut record is an error. */
  lemma TruncatedMessageFails(fs: seq<Field>, cur: seq<Slot>, s: bytes, u: bytes, n: nat)
    requires |fs| == |cur| && LoopRecords(fs, StartState(cur), s).Some?
    requires 0 < n < |u| && DecTag(u).GoodTag?
    requires var GoodTag(tag, wireType, p) := DecTag(u);
             var r := DecRecord(fs, LoopRecords(fs, StartState(cur), s).value, tag, wireType, p);
             r.Some? && r.value.1 == []
    ensures NoInit(fs, cur, s + u[..n]).None?
  {
    hide DecLoop, LoopRecords, DecRecord, DecTag;
    LoopConcat(fs, StartState(cur), s, u[..n]);
    TruncatedRecordFails(fs, LoopRecords(fs, StartState(cur), s).value, u, n);
  }

  // ---- examples of the specification ----

  /** The number 150 in field 1, a key and two groups. */
  lemma VarintExample()
    ensures EncVarint(150) == [0x96, 0x01] && EncVarint(300) == [0xAC, 0x02]
    ensures var f := Field(1, Varint, Required, 0, 0, 4, 0, [], None);
            EncTagged(f, Num(150)) == Some([0x08, 0x96, 0x01])
  {
    assert EncVarint(1) == [1] && EncVarint(2) == [2];
    KeyBytes(Varint, 1);
    assert [0x08] + [0x96, 0x01] == [0x08, 0x96, 0x01];
  }

  /** The string "testing" in field 2. */
  lemma StringExample()
    ensures var f := Field(2, String, Required, 0, 0, 8, 0, [], None);
            EncTagged(f, Raw([0x74, 0x65, 0x73, 0x74, 0x69, 0x6E, 0x67])) ==
            Some([0x12, 0x07, 0x74, 0x65, 0x73, 0x74, 0x69, 0x6E, 0x67])
  {
    KeyBytes(String, 2);
    assert EncLength(7) == [0x07];
    var text := [0x74, 0x65, 0x73, 0x74, 0x69, 0x6E, 0x67];
    assert [0x12] + ([0x07] + text) == [0x12, 0x07, 0x74, 0x65, 0x73, 0x74, 0x69, 0x6E, 0x67];
  }

  /** The numbers 3, 270 and 86942 in field 4, packed. */
  lemma PackedExample()
    ensures var f := Field(4, Varint, Repeated, 4, -4, 4, 3, [], None);
            EncArray(f, [Num(3), Num(270), Num(86942)]) == Some([0x22, 0x06, 0x03, 0x8E, 0x02, 0x9E, 0xA7, 0x05])
  {
    var f := Field(4, Varint, Repeated, 4, -4, 4, 3, [], None);
    hide EncPacked, EncLength, EncVarint, EncTag, EncValue;
    KeyBytes(String, 4);
    LengthSix();
    PackedThree(f, Num(3), Num(270), Num(86942));
    ThreeNumbers(f);
    var p := [0x03, 0x8E, 0x02, 0x9E, 0xA7, 0x05];
    assert [0x03] + ([0x8E, 0x02] + [0x9E, 0xA7, 0x05]) == p;
    assert [0x22] + ([0x06] + p) == [0x22, 0x06, 0x03, 0x8E, 0x02, 0x9E, 0xA7, 0x05];
  }

  lemma LengthSix()
    ensures EncLength(6) == [0x06]
  {
  }

  lemma ThreeNumbers(f: Field)
    requires f.ltype == Varint && f.dataSize == 4
    ensures EncValue(f, Num(3)) == Some([0x03])
    ensures EncValue(f, Num(270)) == Some([0x8E, 0x02])
    ensures EncValue(f, Num(86942)) == Some([0x9E, 0xA7, 0x05])
  {
    hide EncVarint;
    SmallVarints();
  }

  lemma PackedThree(f: Field, a: Value, b: Value, c: Value)
    ensures EncPacked(f, [a, b, c]) == Join(EncValue(f, a), Join(EncValue(f, b), EncValue(f, c)))
  {
    hide EncPacked, EncValue;
    PackedPair(f, a, [b, c]);
    PackedPair(f, b, [c]);
    PackedPair(f, c, []);
    assert [a] + [b, c] == [a, b, c] && [b] + [c] == [b, c] && [c] + [] == [c];
    if EncValue(f, c).Some? {
      assert EncValue(f, c).value + [] == EncValue(f, c).value;
    }
  }

  lemma SmallVarints()
    ensures EncVarint(3) == [0x03] && EncVarint(270) == [0x8E, 0x02] && EncVarint(86942) == [0x9E, 0xA7, 0x05]
  {
    assert EncVarint(2) == [2] && EncVarint(5) == [5];
    assert EncVarint(679) == [0xA7, 0x05];
  }

  lemma PackedPair(f: Field, v: Value, vs: seq<Value>)
    ensures EncPacked(f, [v] + vs) == Join(EncValue(f, v), EncPacked(f, vs)) && EncPacked(f, []) == Some([])
  {
    assert ([v] + vs)[1..] == vs;
  }
}
