/** Forward compatibility: fields that a newer sender knows and the receiver does not. */
module UnknownFields {
  import opened Bytes
  import opened Varint
  import opened Descriptor
  import opened Encoding
  import opened Decoding
  import opened Merging
  import opened RoundTrip
  import opened Records

  /** A record of a field the descriptor does not know, with a payload its wire type says how
      to skip. */
  predicate UnknownRecord(fs: seq<Field>, u: bytes) {
    match DecTag(u)
    case GoodTag(tag, wireType, payload) =>
      && tag != 0
      && FindTag(fs, tag, 0) == |fs|
      && SkipField(wireType, payload) == Some([])
    case _ => false
  }

  lemma UnknownIsSkipped(fs: seq<Field>, st: LoopState, u: bytes, t: bytes)
    requires |fs| == |st.slots| && UnknownRecord(fs, u)
    ensures DecLoop(fs, st, u + t) == DecLoop(fs, st, t)
  {
    hide Dec32, SkipField;
    DecTagStable(u, t);
    var GoodTag(tag, wireType, payload) := DecTag(u);
    SkipFieldStable(wireType, payload, t);
    assert [] + t == t;
  }

  /** A key with field number 0 does not end the message unless all of it is 0: it is skipped. */
  lemma NumberZeroIsSkipped(fs: seq<Field>, st: LoopState, wireType: byte, payload: bytes, t: bytes)
    requires WfDesc(fs) && fs != [] && |fs| == |st.slots| && 1 <= wireType < 8
    requires SkipField(wireType as nat, payload) == Some([])
    ensures DecLoop(fs, st, [wireType] + payload + t) == DecLoop(fs, st, t)
  {
    hide DecTag, SkipField, WfDesc, FindTag, DecField;
    NumberZeroKey(wireType, payload + t);
    assert [wireType] + payload + t == [wireType] + (payload + t) && [] + t == t;
    NoTagZero(fs);
    SkipFieldStable(wireType as nat, payload, t);
  }

  lemma NumberZeroKey(wireType: byte, t: bytes)
    requires 1 <= wireType < 8
    ensures DecTag([wireType] + t) == GoodTag(0, wireType as nat, t)
  {
    hide Dec32;
    RunDecodes32([wireType], t);
  }

  lemma NoTagZero(fs: seq<Field>)
    requires WfDesc(fs)
    ensures FindTag(fs, 0, 0) == |fs|
  {
    var k := FindTag(fs, 0, 0);
    if k < |fs| {
      WfDescField(fs, k);
    }
  }

  /** Forward compatibility: an unknown record inserted between any two records changes
      nothing, not even the tracking of a fixed-count field that is being received. */
  lemma InsertUnknown(fs: seq<Field>, cur: seq<Slot>, s: bytes, u: bytes, t: bytes)
    requires |fs| == |cur| && LoopRecords(fs, StartState(cur), s).Some? && UnknownRecord(fs, u)
    ensures NoInit(fs, cur, s + u + t) == NoInit(fs, cur, s + t)
  {
    hide DecLoop, LoopRecords, UnknownRecord;
    LoopConcat(fs, StartState(cur), s, u + t);
    LoopConcat(fs, StartState(cur), s, t);
    assert s + u + t == s + (u + t);
    UnknownIsSkipped(fs, LoopRecords(fs, StartState(cur), s).value, u, t);
  }

  /** Unknown fields of all four wire types, as an encoder would write them. */
  lemma UnknownRecords(fs: seq<Field>, tag: nat, v: nat, data: bytes)
    requires 1 <= tag <= MAX_TAG && FindTag(fs, tag, 0) == |fs|
    ensures UnknownRecord(fs, EncTag(WT_VARINT, tag) + EncVarint(v))
    ensures |data| == 8 ==> UnknownRecord(fs, EncTag(WT_64BIT, tag) + data)
    ensures |data| == 4 ==> UnknownRecord(fs, EncTag(WT_32BIT, tag) + data)
    ensures |data| < TWO_TO_THE_32 ==> UnknownRecord(fs, EncTag(WT_STRING, tag) + (EncLength(|data|) + data))
  {
    hide UnknownRecord, SkipField, EncTag, EncVarint, EncLength, DecChunk;
    Skippable(v, data);
    UnknownTag(fs, WT_VARINT, tag, EncVarint(v));
    if |data| == 8 {
      UnknownTag(fs, WT_64BIT, tag, data);
    }
    if |data| == 4 {
      UnknownTag(fs, WT_32BIT, tag, data);
    }
    if |data| < TWO_TO_THE_32 {
      UnknownTag(fs, WT_STRING, tag, EncLength(|data|) + data);
    }
  }

  lemma UnknownTag(fs: seq<Field>, wireType: nat, tag: nat, payload: bytes)
    requires 1 <= tag <= MAX_TAG && FindTag(fs, tag, 0) == |fs| && wireType < 8
    requires SkipField(wireType, payload) == Some([])
    ensures UnknownRecord(fs, EncTag(wireType, tag) + payload)
  {
    hide DecTag, EncTag, SkipField, FindTag;
    TagRoundTrip(wireType, tag, payload);
  }

  lemma Skippable(v: nat, data: bytes)
    ensures SkipField(WT_VARINT, EncVarint(v)) == Some([])
    ensures |data| == 8 ==> SkipField(WT_64BIT, data) == Some([])
    ensures |data| == 4 ==> SkipField(WT_32BIT, data) == Some([])
    ensures |data| < TWO_TO_THE_32 ==> SkipField(WT_STRING, EncLength(|data|) + data) == Some([])
  {
    hide EncVarint, EncLength, SkipVarint, DecChunk;
    EncIsRun(v);
    SkipRun(EncVarint(v));
    if |data| < TWO_TO_THE_32 {
      ChunkRoundTrip(data, []);
      assert EncLength(|data|) + data + [] == EncLength(|data|) + data;
    }
  }

  lemma {:induction false} SkipRun(run: bytes)
    requires IsRun(run)
    ensures SkipVarint(run) == Some([])
  {
    if |run| > 1 {
      SkipRun(run[1..]);
    }
  }

  // ---- unknown fields everywhere in an encoding ----

  /** Unknown records to insert into an encoding. For a message: those at its end, and the noise of
      each field. For a field: those in front of it, and the noise of each of its elements. For an
      element: those in front of its tag, and the noise inside its submessage. */
  datatype Noise = Noise(here: seq<bytes>, inner: seq<Noise>) {
    /** The noise of part k; there is none where nothing is listed. */
    function At(k: nat): Noise { if k < |inner| then inner[k] else Noise([], []) }
  }

  function Joined(us: seq<bytes>): bytes {
    if us == [] then [] else us[0] + Joined(us[1..])
  }

  ghost predicate AllUnknown(fs: seq<Field>, us: seq<bytes>) {
    forall k :: 0 <= k < |us| ==> UnknownRecord(fs, us[k])
  }

  /** Every inserted record is unknown to the message type it is inserted into. */
  ghost predicate UnknownInMsg(fs: seq<Field>, n: Noise)
    decreases fs
  {
    AllUnknown(fs, n.here) && forall i :: 0 <= i < |fs| ==> UnknownInField(fs, fs[i], n.At(i))
  }

  ghost predicate UnknownInField(fs: seq<Field>, f: Field, n: Noise)
    decreases f, 1
  {
    AllUnknown(fs, n.here) && forall k: nat :: UnknownInElement(fs, f, n.At(k))
  }

  ghost predicate UnknownInElement(fs: seq<Field>, f: Field, n: Noise)
    decreases f, 0
  {
    AllUnknown(fs, n.here) && (f.ltype == Submessage ==> UnknownInMsg(f.sub, n.At(0)))
  }

  /** An encoded data item with noise inside; None also when a length-delimited part is too long
      to be read. */
  function NoisyValue(f: Field, v: Value, n: Noise): Option<bytes>
    decreases f, 0, 0
  {
    if f.ltype != Submessage then EncScalar(f, v)
    else if v.Msg? && |v.slots| == |f.sub| && ShortChunk(NoisyFields(f.sub, 0, v.slots, n)) then
      WithLength(NoisyFields(f.sub, 0, v.slots, n))
    else None
  }

  function NoisyElement(f: Field, v: Value, n: Noise): Option<bytes>
    decreases f, 1, 0
  {
    Join(Some(Joined(n.here) + EncTag(WireType(f.ltype), f.tag)), NoisyValue(f, v, n.At(0)))
  }

  /** Elements k and later of an array with one tag for each. */
  function NoisyItems(f: Field, items: seq<Value>, k: nat, n: Noise): Option<bytes>
    requires k <= |items|
    decreases f, 2, |items| - k
  {
    if k == |items| then Some([]) else Join(NoisyElement(f, items[k], n.At(k)), NoisyItems(f, items, k + 1, n))
  }

  function NoisySlot(f: Field, s: Slot, n: Noise): Option<bytes>
    decreases f, 3, 0
  {
    if f.htype == Repeated then
      if s.Items() != [] && |s.Items()| <= f.arraySize && !f.ltype.Packable() then NoisyItems(f, s.Items(), 0, n)
      else if f.ltype.Packable() && !ShortChunk(EncPacked(f, s.Items())) then None
      else EncArray(f, s.Items())
    else if Emitted(f, s) then NoisyElement(f, s.Payload(), n.At(0))
    else Some([])
  }

  /** The encoding of fields i and later of a message with unknown records inserted. */
  function NoisyFields(fs: seq<Field>, i: nat, m: seq<Slot>, n: Noise): Option<bytes>
    requires i <= |fs| == |m|
    decreases fs, 0, |fs| - i
  {
    if i == |fs| then Some(Joined(n.here))
    else Join(Join(Some(Joined(n.At(i).here)), NoisySlot(fs[i], m[SlotOf(fs, i)], n.At(i))), NoisyFields(fs, i + 1, m, n))
  }

  lemma {:induction false} NoiseIsSkipped(fs: seq<Field>, st: LoopState, us: seq<bytes>, t: bytes)
    requires |fs| == |st.slots| && AllUnknown(fs, us)
    ensures DecLoop(fs, st, Joined(us) + t) == DecLoop(fs, st, t)
  {
    hide DecLoop, UnknownRecord;
    if us == [] {
      assert [] + t == t;
    } else {
      NoiseIsSkipped(fs, st, us[1..], t);
      UnknownIsSkipped(fs, st, us[0], Joined(us[1..]) + t);
      assert Joined(us) + t == us[0] + (Joined(us[1..]) + t);
    }
  }

  // ---- inserting records makes an encoding longer ----

  predicate Longer(a: Option<bytes>, b: Option<bytes>) {
    a.Some? ==> b.Some? && |b.value| <= |a.value|
  }

  lemma {:induction false} NoisyValueLonger(f: Field, v: Value, n: Noise)
    ensures Longer(NoisyValue(f, v, n), EncValue(f, v))
    decreases f, 0, 0
  {
    if f.ltype == Submessage && v.Msg? && |v.slots| == |f.sub| {
      hide EncVarint;
      NoisyFieldsLonger(f.sub, 0, v.slots, n);
      var a, b := NoisyFields(f.sub, 0, v.slots, n), EncFields(f.sub, 0, v.slots);
      if ShortChunk(a) && a.Some? {
        LongerLength(|b.value|, |a.value|);
      }
    }
  }

  lemma {:induction false} ShorterVarint(v: nat, w: nat)
    requires v <= w
    ensures |EncVarint(v)| <= |EncVarint(w)|
  {
    if v >= 128 {
      ShorterVarint(v / 128, w / 128);
    }
  }

  lemma LongerLength(m: nat, n: nat)
    requires m <= n < TWO_TO_THE_32
    ensures |EncLength(m)| <= |EncLength(n)|
  {
    SmallMod(m, TWO_TO_THE_64);
    SmallMod(n, TWO_TO_THE_64);
    ShorterVarint(m, n);
  }

  lemma {:induction false} NoisyItemsLonger(f: Field, items: seq<Value>, k: nat, n: Noise)
    requires k <= |items|
    ensures Longer(NoisyItems(f, items, k, n), EncUnpacked(f, items[k..]))
    decreases f, 1, |items| - k
  {
    hide NoisyValue, EncValue, EncTag;
    if k < |items| {
      assert items[k..][0] == items[k] && items[k..][1..] == items[k + 1..];
      NoisyValueLonger(f, items[k], n.At(k).At(0));
      NoisyItemsLonger(f, items, k + 1, n);
    }
  }

  lemma NoisySlotLonger(f: Field, s: Slot, n: Noise)
    ensures Longer(NoisySlot(f, s, n), EncSlot(f, s))
    decreases f, 2, 0
  {
    hide NoisyValue, EncValue, EncTag, NoisyItems, EncUnpacked, EncPacked, IsZeroValue;
    if f.htype == Repeated {
      NoisyItemsLonger(f, s.Items(), 0, n);
      assert s.Items()[0..] == s.Items();
    } else if Emitted(f, s) {
      NoisyValueLonger(f, s.Payload(), n.At(0).At(0));
    }
  }

  lemma {:induction false} NoisyFieldsLonger(fs: seq<Field>, i: nat, m: seq<Slot>, n: Noise)
    requires i <= |fs| == |m|
    ensures Longer(NoisyFields(fs, i, m, n), EncFields(fs, i, m))
    decreases fs, 0, |fs| - i
  {
    hide NoisySlot, EncSlot;
    if i < |fs| {
      NoisySlotLonger(fs[i], m[SlotOf(fs, i)], n.At(i));
      NoisyFieldsLonger(fs, i + 1, m, n);
    }
  }

  // ---- and changes nothing else ----

  lemma {:induction false} NoisyValueMerges(f: Field, cur: Value, v: Value, n: Noise, t: bytes)
    requires WfField(f) && TypedValue(f, v) && NoisyValue(f, v, n).Some?
    requires f.ltype == Submessage ==> UnknownInMsg(f.sub, n)
    ensures DecValue(f, cur, NoisyValue(f, v, n).value + t) == WithRest(MergeValue(f, cur, v), t)
    decreases f, 0, 0
  {
    if f.ltype != Submessage {
      ScalarRoundTrip(f, v, t);
    } else {
      hide DecLoop, DecValue, EncFields, NoisyFields, MergeFields, MergeLoop, EncLength, UnknownInMsg, WfDesc;
      var b := NoisyFields(f.sub, 0, v.slots, n).value;
      var base := SubBase(f, cur);
      NoisyFieldsLonger(f.sub, 0, v.slots, n);
      NoisyLoopMerges(f.sub, 0, StartState(base), v.slots, n, []);
      assert b + [] == b;
      LoopFinishes(f.sub, base, v.slots, b);
      ChunkDecodes(f, cur, b, Merge(f.sub, base, v.slots), t);
    }
  }

  lemma {:induction false} NoisyItemsMerge(fs: seq<Field>, i: nat, st: LoopState, items: seq<Value>, k: nat,
                                           n: Noise, t: bytes)
    requires WfDesc(fs) && i < |fs| == |st.slots| && fs[i].htype == Repeated
    requires k < |items| && TypedItems(fs[i], items) && NoisyItems(fs[i], items, k, n).Some?
    requires UnknownInField(fs, fs[i], n)
    ensures DecLoop(fs, st, NoisyItems(fs[i], items, k, n).value + t) ==
            var vs := MergeItems(fs[i], items[k..]);
            Continue(fs, if vs.Some? then Receive(fs, i, st, vs.value) else None, t)
    decreases fs[i], 1, |items| - k
  {
    hide DecLoop, DecValue, EncTag, NoisyValue, MergeValue, Receive, WfDesc, AllUnknown, UnknownInMsg;
    var f := fs[i];
    WfDescField(fs, i);
    assert UnknownInElement(fs, f, n.At(k));
    var us, tag, p := n.At(k).here, EncTag(WireType(f.ltype), f.tag), NoisyValue(f, items[k], n.At(k).At(0)).value;
    var later := NoisyItems(f, items, k + 1, n).value + t;
    assert NoisyItems(f, items, k, n).value + t == Joined(us) + (tag + (p + later));
    NoiseIsSkipped(fs, st, us, tag + (p + later));
    NoisyValueMerges(f, Stale, items[k], n.At(k).At(0), later);
    var v := MergeValue(f, Stale, items[k]);
    ElementStep(fs, i, st, v, p, later);
    assert items[k..][0] == items[k] && items[k..][1..] == items[k + 1..];
    if v.Some? {
      var st1 := Receive(fs, i, st, [v.value]);
      if k + 1 == |items| {
        assert items[k + 1..] == [] && later == t;
        assert [v.value] + [] == [v.value];
      } else {
        if st1.Some? {
          NoisyItemsMerge(fs, i, st1.value, items, k + 1, n, t);
        }
        var vs := MergeItems(f, items[k + 1..]);
        if vs.Some? {
          ReceiveCompose(fs, i, st, [v.value], vs.value);
        }
      }
    }
  }

  lemma NoisySingleMerges(fs: seq<Field>, i: nat, st: LoopState, m: seq<Slot>, n: Noise, t: bytes)
    requires WfDesc(fs) && i < |fs| == |st.slots| == |m| && fs[i].htype != Repeated
    requires Emitted(fs[i], m[SlotOf(fs, i)]) && TypedValue(fs[i], m[SlotOf(fs, i)].Payload())
    requires NoisyElement(fs[i], m[SlotOf(fs, i)].Payload(), n).Some? && UnknownInElement(fs, fs[i], n)
    ensures DecLoop(fs, st, NoisyElement(fs[i], m[SlotOf(fs, i)].Payload(), n).value + t) ==
            Continue(fs, MergeState(fs, i, st, m), t)
    decreases fs[i], 2, 0
  {
    hide DecLoop, DecValue, DecStatic, EncTag, NoisyValue, MergeValue;
    hide MergeSlot, WfDesc, Emitted, TypedValue, AllUnknown, UnknownInMsg;
    var f, k := fs[i], SlotOf(fs, i);
    WfDescField(fs, i);
    var v := m[k].Payload();
    var us, tag, p := n.here, EncTag(WireType(f.ltype), f.tag), NoisyValue(f, v, n.At(0)).value;
    assert NoisyElement(f, v, n).value + t == Joined(us) + (tag + (p + t));
    NoiseIsSkipped(fs, st, us, tag + (p + t));
    RecordStep(fs, i, st, WireType(f.ltype), p + t);
    NoisyValueMerges(f, CurrentValue(f, st.slots[k]), v, n.At(0), t);
    var st1 := EnterField(fs, i, st);
    StaticMerges(f, st.slots[k], m[k], WireType(f.ltype), st1.value.fixedCount, p, t);
  }

  lemma NoisyArrayMerges(fs: seq<Field>, i: nat, st: LoopState, m: seq<Slot>, n: Noise, t: bytes)
    requires WfDesc(fs) && i < |fs| == |st.slots| == |m|
    requires fs[i].htype == Repeated && FixedReady(fs, i, st)
    requires TypedSlot(fs[i], m[SlotOf(fs, i)]) && NoisySlot(fs[i], m[SlotOf(fs, i)], n).Some?
    requires UnknownInField(fs, fs[i], n)
    ensures DecLoop(fs, st, NoisySlot(fs[i], m[SlotOf(fs, i)], n).value + t) == Continue(fs, MergeState(fs, i, st, m), t)
    decreases fs[i], 2, 0
  {
    hide DecLoop, WfDesc, EncPacked, NoisyItems, EncTag;
    hide EncLength, MergeState, Receive, MergeItems, TypedValue, UnknownInField;
    var f, items := fs[i], m[SlotOf(fs, i)].Items();
    ReceiveIsMerge(fs, i, st, m);
    if items == [] {
      assert [] + t == t;
    } else if f.ltype.Packable() {
      PackableItemsMerge(f, items);
      PackedMerges(fs, i, st, items, t);
    } else {
      NoisyItemsMerge(fs, i, st, items, 0, n, t);
      assert items[0..] == items;
    }
  }

  lemma NoisyFieldMerges(fs: seq<Field>, i: nat, st: LoopState, m: seq<Slot>, n: Noise, t: bytes)
    requires WfDesc(fs) && i < |fs| == |st.slots| == |m| && FixedReady(fs, i, st)
    requires TypedSlot(fs[i], m[SlotOf(fs, i)]) && NoisySlot(fs[i], m[SlotOf(fs, i)], n).Some?
    requires UnknownInField(fs, fs[i], n)
    ensures DecLoop(fs, st, NoisySlot(fs[i], m[SlotOf(fs, i)], n).value + t) == Continue(fs, MergeState(fs, i, st, m), t)
    decreases fs[i], 3, 0
  {
    hide DecLoop, WfDesc, NoisyElement, NoisyItems, EncArray;
    hide MergeValue, MergeItems, TypedValue, IsZeroValue, UnknownInElement;
    var f, k := fs[i], SlotOf(fs, i);
    if f.htype == Repeated {
      NoisyArrayMerges(fs, i, st, m, n, t);
    } else if Emitted(f, m[k]) {
      NoisySingleMerges(fs, i, st, m, n.At(0), t);
    } else {
      assert [] + t == t;
      assert st.slots[k := st.slots[k]] == st.slots;
    }
  }

  /** The merge law with unknown records inserted anywhere. */
  lemma {:induction false} NoisyLoopMerges(fs: seq<Field>, i: nat, st: LoopState, m: seq<Slot>, n: Noise, t: bytes)
    requires WfDesc(fs) && i <= |fs| == |st.slots| == |m| && FixedReady(fs, i, st)
    requires TypedMsg(fs, i, m) && NoisyFields(fs, i, m, n).Some? && UnknownInMsg(fs, n)
    ensures DecLoop(fs, st, NoisyFields(fs, i, m, n).value + t) == Continue(fs, MergeLoop(fs, i, st, m), t)
    decreases fs, 0, |fs| - i
  {
    hide DecLoop, WfDesc, NoisySlot, MergeState, TypedSlot, AllUnknown;
    if i == |fs| {
      NoiseIsSkipped(fs, st, n.here, t);
    } else {
      var us, e := n.At(i).here, NoisySlot(fs[i], m[SlotOf(fs, i)], n.At(i)).value;
      var later := NoisyFields(fs, i + 1, m, n).value;
      assert NoisyFields(fs, i, m, n).value + t == Joined(us) + (e + (later + t));
      assert UnknownInField(fs, fs[i], n.At(i));
      NoiseIsSkipped(fs, st, us, e + (later + t));
      NoisyFieldMerges(fs, i, st, m, n.At(i), later + t);
      FixedReadyStep(fs, i, st, m);
      var st1 := MergeState(fs, i, st, m);
      if st1.Some? {
        NoisyLoopMerges(fs, i + 1, st1.value, m, n, t);
      }
    }
  }

  /** Forward compatibility: unknown fields inserted into an encoding, any number of them at every
      field boundary, between the elements of arrays and inside submessages at any depth, change
      nothing, whatever struct the message is decoded over. */
  lemma UnknownFieldsIgnored(fs: seq<Field>, cur: seq<Slot>, m: seq<Slot>, n: Noise)
    requires WfDesc(fs) && |fs| == |cur| == |m| && TypedMsg(fs, 0, m) && UnknownInMsg(fs, n)
    requires Addressable(NoisyFields(fs, 0, m, n))
    ensures Enc(fs, m).Some?
    ensures NoInit(fs, cur, NoisyFields(fs, 0, m, n).value) == NoInit(fs, cur, Enc(fs, m).value)
    ensures Decode(fs, NoisyFields(fs, 0, m, n).value) ==
            if ReadableFields(fs, 0, m) then Some((NormMsg(fs, m), [])) else None
  {
    hide DecLoop, MergeLoop, EncFields, NoisyFields, ReadableFields, NormMsg, UnknownInMsg, WfDesc, TypedMsg;
    NoisyFieldsLonger(fs, 0, m, n);
    SameFromStart(fs, cur, m, n);
    SameFromStart(fs, DefaultMsg(fs, 0), m, n);
    MessageRoundTrip(fs, m);
  }

  lemma SameFromStart(fs: seq<Field>, cur: seq<Slot>, m: seq<Slot>, n: Noise)
    requires WfDesc(fs) && |fs| == |cur| == |m| && TypedMsg(fs, 0, m) && UnknownInMsg(fs, n)
    requires NoisyFields(fs, 0, m, n).Some? && Addressable(Enc(fs, m))
    ensures NoInit(fs, cur, NoisyFields(fs, 0, m, n).value) == NoInit(fs, cur, Enc(fs, m).value)
  {
    hide DecLoop, MergeLoop, EncFields, NoisyFields, UnknownInMsg, WfDesc, TypedMsg;
    var a, b := NoisyFields(fs, 0, m, n).value, Enc(fs, m).value;
    NoisyLoopMerges(fs, 0, StartState(cur), m, n, []);
    LoopMerges(fs, 0, StartState(cur), m, []);
    assert a + [] == a && b + [] == b;
  }

  /** An unknown record in front of field i of an encoding. */
  lemma UnknownAtField(fs: seq<Field>, m: seq<Slot>, i: nat, u: bytes)
    requires WfDesc(fs) && i <= |fs| == |m| && TypedMsg(fs, 0, m) && Addressable(Enc(fs, m)) && UnknownRecord(fs, u)
    ensures EncBefore(fs, i, m).Some? && EncFields(fs, i, m).Some?
    ensures Decode(fs, EncBefore(fs, i, m).value + u + EncFields(fs, i, m).value) ==
            if ReadableFields(fs, 0, m) then Some((NormMsg(fs, m), [])) else None
  {
    hide DecLoop, LoopRecords, MergeState, EncSlot, UnknownRecord, ReadableFields, NormMsg, WfDesc, TypedMsg;
    SplitAt(fs, i, m);
    var st, a, b := StartState(DefaultMsg(fs, 0)), EncBefore(fs, i, m).value, EncFields(fs, i, m).value;
    MessageRoundTrip(fs, m);
    PrefixThen(fs, i, st, m, u + b);
    PrefixThen(fs, i, st, m, b);
    assert a + u + b == a + (u + b);
    var r := MergeBefore(fs, i, st, m);
    if r.Some? {
      UnknownIsSkipped(fs, r.value, u, b);
    }
  }

  lemma {:induction false} SplitAt(fs: seq<Field>, i: nat, m: seq<Slot>)
    requires i <= |fs| == |m| && Enc(fs, m).Some?
    ensures EncBefore(fs, i, m).Some? && EncFields(fs, i, m).Some?
    ensures Enc(fs, m).value == EncBefore(fs, i, m).value + EncFields(fs, i, m).value
  {
    hide EncSlot;
    if i > 0 {
      SplitAt(fs, i - 1, m);
      var a, b := EncBefore(fs, i - 1, m).value, EncFields(fs, i, m).value;
      var e := EncSlot(fs[i - 1], m[SlotOf(fs, i - 1)]).value;
      assert a + (e + b) == a + e + b;
    }
  }

  /** The field loop on what was written before field i, followed by anything. */
  lemma {:induction false} PrefixThen(fs: seq<Field>, i: nat, st: LoopState, m: seq<Slot>, t: bytes)
    requires WfDesc(fs) && i <= |fs| == |st.slots| == |m| && FixedReady(fs, 0, st)
    requires TypedMsg(fs, 0, m) && Addressable(EncBefore(fs, i, m))
    ensures DecLoop(fs, st, EncBefore(fs, i, m).value + t) == Continue(fs, MergeBefore(fs, i, st, m), t)
  {
    hide DecLoop, LoopRecords, MergeState, EncSlot, WfDesc, TypedMsg, TypedSlot, FixedReady;
    if i == 0 {
      assert [] + t == t;
    } else {
      var a, e := EncBefore(fs, i - 1, m).value, EncSlot(fs[i - 1], m[SlotOf(fs, i - 1)]).value;
      assert a + e + t == a + (e + t);
      PrefixThen(fs, i - 1, st, m, e + t);
      var r := MergeBefore(fs, i - 1, st, m);
      if r.Some? {
        PrefixIsRecords(fs, i - 1, st, m);
        TypedAt(fs, 0, m, i - 1);
        FieldMerges(fs, i - 1, r.value, m, t);
      }
    }
  }
}
