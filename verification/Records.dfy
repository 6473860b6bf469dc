/** A byte string as a sequence of records: decoding one part after the other, unknown fields,
    concatenated and framed messages. */
module Records {
  import opened Bytes
  import opened Varint
  import opened Descriptor
  import opened Encoding
  import opened Decoding
  import opened Merging
  import opened RoundTrip

  // ---- no decoder looks past what it consumes ----

  lemma {:induction false} Dec32LoopStable(s: bytes, bitpos: nat, result: nat, t: bytes)
    requires bitpos < 256 && Dec32Loop(s, bitpos, result).Some?
    ensures var r := Dec32Loop(s, bitpos, result).value;
            Dec32Loop(s + t, bitpos, result) == Some((r.0, r.1 + t))
    decreases |s|
  {
    hide Or, Pow2;
    assert (s + t)[1..] == s[1..] + t;
    if s[0] >= 128 {
      var result' := if bitpos >= 32 then result else Or(result, (s[0] % 128) * Pow2(bitpos) % TWO_TO_THE_32);
      Dec32LoopStable(s[1..], (bitpos + 7) % 256, result', t);
    }
  }

  lemma Dec32Stable(s: bytes, t: bytes)
    requires Dec32(s).Some?
    ensures Dec32(s + t) == Some((Dec32(s).value.0, Dec32(s).value.1 + t))
  {
    hide Dec32Loop;
    assert (s + t)[1..] == s[1..] + t;
    if s[0] >= 128 {
      Dec32LoopStable(s[1..], 7, s[0] % 128, t);
    }
  }

  lemma DecVarintStable(s: bytes, t: bytes)
    requires DecVarint(s).Some?
    ensures DecVarint(s + t) == Some((DecVarint(s).value.0, DecVarint(s).value.1 + t))
  {
    hide GroupSum;
    var (run, rest) := ReadRun(s, 10).value;
    ReadRunAccepts(run, rest + t, 10);
    assert run + (rest + t) == s + t;
  }

  lemma {:induction false} SkipVarintStable(s: bytes, t: bytes)
    requires SkipVarint(s).Some?
    ensures SkipVarint(s + t) == Some(SkipVarint(s).value + t)
  {
    assert (s + t)[1..] == s[1..] + t;
    if s[0] >= 128 {
      SkipVarintStable(s[1..], t);
    }
  }

  lemma TakeStable(s: bytes, n: nat, t: bytes)
    requires n <= |s|
    ensures Take(s + t, n) == Some((Take(s, n).value.0, Take(s, n).value.1 + t))
    ensures Decoding.Drop(s + t, n) == Some(Decoding.Drop(s, n).value + t)
  {
    assert (s + t)[..n] == s[..n];
    assert (s + t)[n..] == s[n..] + t;
  }

  lemma DecChunkStable(s: bytes, t: bytes)
    requires DecChunk(s).Some?
    ensures DecChunk(s + t) == Some((DecChunk(s).value.0, DecChunk(s).value.1 + t))
  {
    hide Dec32;
    Dec32Stable(s, t);
    var (n, rest) := Dec32(s).value;
    TakeStable(rest, n, t);
  }

  lemma DecTagStable(s: bytes, t: bytes)
    requires !DecTag(s).BadTag?
    ensures DecTag(s + t) == match DecTag(s)
                             case BadTag => BadTag
                             case EndTag(rest) => EndTag(rest + t)
                             case GoodTag(tag, wt, rest) => GoodTag(tag, wt, rest + t)
  {
    hide Dec32;
    Dec32Stable(s, t);
  }

  lemma SkipFieldStable(wireType: nat, s: bytes, t: bytes)
    requires SkipField(wireType, s).Some?
    ensures SkipField(wireType, s + t) == Some(SkipField(wireType, s).value + t)
  {
    hide SkipVarint, DecChunk, Take;
    if wireType == WT_VARINT {
      SkipVarintStable(s, t);
    } else if wireType == WT_STRING {
      DecChunkStable(s, t);
    } else {
      TakeStable(s, if wireType == WT_64BIT then 8 else 4, t);
    }
  }

  lemma DecScalarStable(f: Field, s: bytes, t: bytes)
    requires DecScalar(f, s).Some?
    ensures DecScalar(f, s + t) == Some((DecScalar(f, s).value.0, DecScalar(f, s).value.1 + t))
  {
    hide Dec32, DecVarint, LeValue, IntField;
    if f.ltype == Varint || f.ltype == UVarint || f.ltype == SVarint {
      DecVarintStable(s, t);
    } else if f.ltype == Fixed32 || f.ltype == Fixed64 {
      TakeStable(s, if f.ltype == Fixed32 then 4 else 8, t);
    } else if f.ltype != Submessage {
      Dec32Stable(s, t);
      var (n, rest) := Dec32(s).value;
      if n <= |rest| {
        TakeStable(rest, n, t);
      }
    }
  }

  lemma DecValueStable(f: Field, cur: Value, s: bytes, t: bytes)
    requires DecValue(f, cur, s).Some?
    ensures DecValue(f, cur, s + t) == Some((DecValue(f, cur, s).value.0, DecValue(f, cur, s).value.1 + t))
  {
    hide DecScalar, NoInit, DecChunk;
    if f.ltype != Submessage {
      DecScalarStable(f, s, t);
    } else {
      DecChunkStable(s, t);
    }
  }

  lemma DecStaticStable(f: Field, wireType: nat, slot: Slot, count: nat, s: bytes, t: bytes)
    requires DecStatic(f, wireType, slot, count, s).Some?
    ensures var r := DecStatic(f, wireType, slot, count, s).value;
            DecStatic(f, wireType, slot, count, s + t) == Some((r.0, r.1, r.2 + t))
  {
    hide DecValue, DecChunk, DecPacked;
    if f.htype == Repeated && wireType == WT_STRING && f.ltype.Packable() {
      DecChunkStable(s, t);
    } else if f.htype == Repeated {
      DecValueStable(f, Stale, s, t);
    } else {
      DecValueStable(f, CurrentValue(f, slot), s, t);
    }
  }

  lemma DecRecordStable(fs: seq<Field>, st: LoopState, tag: nat, wireType: nat, s: bytes, t: bytes)
    requires |fs| == |st.slots| && DecRecord(fs, st, tag, wireType, s).Some?
    ensures var r := DecRecord(fs, st, tag, wireType, s).value;
            DecRecord(fs, st, tag, wireType, s + t) == Some((r.0, r.1 + t))
  {
    hide DecStatic, Dec32, SkipField, EnterField;
    var i := FindTag(fs, tag, 0);
    if i < |fs| {
      var st1 := EnterField(fs, i, st).value;
      DecStaticStable(fs[i], wireType, st.slots[SlotOf(fs, i)], st1.fixedCount, s, t);
    } else if fs == [] && tag == 0 {
      Dec32Stable(s, t);
    } else {
      SkipFieldStable(wireType, s, t);
    }
  }

  // ---- a byte string decoded to its very end ----

  /** The loop state after a byte string that consists of whole records; None when it does not
      decode, or when a terminator ends the message early. */
  function LoopRecords(fs: seq<Field>, st: LoopState, s: bytes): (r: Option<LoopState>)
    requires |fs| == |st.slots|
    ensures r.Some? ==> |r.value.slots| == |fs|
    decreases |s|
  {
    if s == [] then Some(st)
    else
      match DecTag(s)
      case BadTag => None
      case EndTag(_) => None
      case GoodTag(tag, wireType, rest) =>
        match DecRecord(fs, st, tag, wireType, rest)
        case None => None
        case Some((st', rest')) => LoopRecords(fs, st', rest')
  }

  /** Whole records followed by anything decode as the records and then what follows, over the
      same struct, whatever field the last record was for. */
  lemma {:induction false} LoopConcat(fs: seq<Field>, st: LoopState, s: bytes, t: bytes)
    requires |fs| == |st.slots| && LoopRecords(fs, st, s).Some?
    ensures DecLoop(fs, st, s + t) == DecLoop(fs, LoopRecords(fs, st, s).value, t)
    decreases |s|
  {
    if s == [] {
      assert s + t == t;
    } else {
      hide DecTag, DecRecord;
      DecTagStable(s, t);
      var GoodTag(tag, wireType, rest) := DecTag(s);
      DecRecordStable(fs, st, tag, wireType, rest, t);
      var (st', rest') := DecRecord(fs, st, tag, wireType, rest).value;
      LoopConcat(fs, st', rest', t);
    }
  }

  /** What the field loop returns: the state at the end of the records, or at a terminator. */
  lemma {:induction false} LoopEnds(fs: seq<Field>, st: LoopState, s: bytes, x: byte)
    requires |fs| == |st.slots| && DecLoop(fs, st, s).Some?
    ensures LoopRecords(fs, st, s).Some? ==> DecLoop(fs, st, s) == Some((LoopRecords(fs, st, s).value, []))
    ensures LoopRecords(fs, st, s).None? ==>
              DecLoop(fs, st, s + [x]) == Some((DecLoop(fs, st, s).value.0, DecLoop(fs, st, s).value.1 + [x]))
    decreases |s|
  {
    if s != [] {
      hide DecTag, DecRecord;
      DecTagStable(s, [x]);
      if DecTag(s).GoodTag? {
        var GoodTag(tag, wireType, rest) := DecTag(s);
        DecRecordStable(fs, st, tag, wireType, rest, [x]);
        var (st', rest') := DecRecord(fs, st, tag, wireType, rest).value;
        LoopEnds(fs, st', rest', x);
      }
    }
  }

  lemma ZeroEndsLoop(fs: seq<Field>, st: LoopState, t: bytes)
    requires |fs| == |st.slots|
    ensures DecLoop(fs, st, [0] + t) == Some((st, t))
  {
    assert ([0] + t)[1..] == t;
  }

  /** The encoding of a message consists of whole records, and no tag in it is zero. */
  lemma EncodingIsRecords(fs: seq<Field>, i: nat, st: LoopState, m: seq<Slot>)
    requires WfDesc(fs) && i <= |fs| == |st.slots| == |m| && FixedReady(fs, i, st)
    requires TypedMsg(fs, i, m) && Addressable(EncFields(fs, i, m)) && MergeLoop(fs, i, st, m).Some?
    ensures LoopRecords(fs, st, EncFields(fs, i, m).value) == MergeLoop(fs, i, st, m)
  {
    hide DecLoop, LoopRecords, MergeLoop, EncFields, WfDesc;
    var e, st' := EncFields(fs, i, m).value, MergeLoop(fs, i, st, m);
    LoopMerges(fs, i, st, m, []);
    LoopMerges(fs, i, st, m, [0]);
    LoopAtEnd(fs, st');
    ZeroEndsLoop(fs, st'.value, []);
    assert e + [] == e && [0] + [] == [0];
    LoopEnds(fs, st, e, 0);
  }

  /** Whole records followed by whole records. */
  lemma {:induction false} RecordsConcat(fs: seq<Field>, st: LoopState, s: bytes, t: bytes)
    requires |fs| == |st.slots| && LoopRecords(fs, st, s).Some?
    ensures LoopRecords(fs, st, s + t) == LoopRecords(fs, LoopRecords(fs, st, s).value, t)
    decreases |s|
  {
    if s == [] {
      assert s + t == t;
    } else {
      hide DecTag, DecRecord;
      DecTagStable(s, t);
      var GoodTag(tag, wireType, rest) := DecTag(s);
      DecRecordStable(fs, st, tag, wireType, rest, t);
      var (st', rest') := DecRecord(fs, st, tag, wireType, rest).value;
      RecordsConcat(fs, st', rest', t);
    }
  }

  /** The encoding of one field consists of whole records. */
  lemma FieldIsRecords(fs: seq<Field>, i: nat, st: LoopState, m: seq<Slot>)
    requires WfDesc(fs) && i < |fs| == |st.slots| == |m| && FixedReady(fs, i, st)
    requires TypedSlot(fs[i], m[SlotOf(fs, i)]) && Addressable(EncSlot(fs[i], m[SlotOf(fs, i)]))
    requires MergeState(fs, i, st, m).Some?
    ensures LoopRecords(fs, st, EncSlot(fs[i], m[SlotOf(fs, i)]).value) == MergeState(fs, i, st, m)
  {
    hide DecLoop, LoopRecords, MergeState, EncSlot, WfDesc, TypedSlot;
    var e, st' := EncSlot(fs[i], m[SlotOf(fs, i)]).value, MergeState(fs, i, st, m);
    FieldMerges(fs, i, st, m, []);
    FieldMerges(fs, i, st, m, [0]);
    LoopAtEnd(fs, st');
    ZeroEndsLoop(fs, st'.value, []);
    assert e + [] == e && [0] + [] == [0];
    LoopEnds(fs, st, e, 0);
  }

  /** What pb_encode has written before field i. */
  function EncBefore(fs: seq<Field>, i: nat, m: seq<Slot>): Option<bytes>
    requires i <= |fs| == |m|
  {
    if i == 0 then Some([]) else Join(EncBefore(fs, i - 1, m), EncSlot(fs[i - 1], m[SlotOf(fs, i - 1)]))
  }

  function MergeBefore(fs: seq<Field>, i: nat, st: LoopState, m: seq<Slot>): (r: Option<LoopState>)
    requires i <= |fs| == |st.slots| == |m|
    ensures r.Some? ==> |r.value.slots| == |fs|
  {
    if i == 0 then Some(st)
    else
      match MergeBefore(fs, i - 1, st, m)
      case None => None
      case Some(st') => MergeState(fs, i - 1, st', m)
  }

  lemma BeforeStep(fs: seq<Field>, i: nat, st: LoopState, m: seq<Slot>)
    requires i <= |fs| == |st.slots| == |m|
    ensures i == 0 ==> EncBefore(fs, i, m) == Some([]) && MergeBefore(fs, i, st, m) == Some(st)
    ensures i > 0 && Addressable(EncBefore(fs, i, m)) ==>
              var k := SlotOf(fs, i - 1);
              && Addressable(EncBefore(fs, i - 1, m)) && Addressable(EncSlot(fs[i - 1], m[k]))
              && EncBefore(fs, i, m).value == EncBefore(fs, i - 1, m).value + EncSlot(fs[i - 1], m[k]).value
    ensures i > 0 && MergeBefore(fs, i, st, m).Some? ==>
              && MergeBefore(fs, i - 1, st, m).Some?
              && MergeBefore(fs, i, st, m) == MergeState(fs, i - 1, MergeBefore(fs, i - 1, st, m).value, m)
  {
    hide EncSlot, MergeState;
  }

  lemma NoRecords(fs: seq<Field>, st: LoopState)
    requires |fs| == |st.slots|
    ensures LoopRecords(fs, st, []) == Some(st)
  {
  }

  /** At every field boundary, what was written so far consists of whole records. */
  lemma {:induction false} PrefixIsRecords(fs: seq<Field>, i: nat, st: LoopState, m: seq<Slot>)
    requires WfDesc(fs) && i <= |fs| == |st.slots| == |m| && FixedReady(fs, 0, st)
    requires TypedMsg(fs, 0, m) && Addressable(EncBefore(fs, i, m)) && MergeBefore(fs, i, st, m).Some?
    ensures LoopRecords(fs, st, EncBefore(fs, i, m).value) == MergeBefore(fs, i, st, m)
    ensures FixedReady(fs, i, MergeBefore(fs, i, st, m).value)
  {
    hide EncBefore, MergeBefore, LoopRecords, MergeState, EncSlot, WfDesc, TypedMsg, TypedSlot, FixedReady, SlotOf;
    BeforeStep(fs, i, st, m);
    if i == 0 {
      NoRecords(fs, st);
    } else {
      PrefixIsRecords(fs, i - 1, st, m);
      var st' := MergeBefore(fs, i - 1, st, m).value;
      TypedAt(fs, 0, m, i - 1);
      FieldIsRecords(fs, i - 1, st', m);
      FixedReadyStep(fs, i - 1, st', m);
      RecordsConcat(fs, st, EncBefore(fs, i - 1, m).value, EncSlot(fs[i - 1], m[SlotOf(fs, i - 1)]).value);
    }
  }

  // ---- concatenated encodings ----

  /** Message types without required and fixed-count fields: the final checks never fail. */
  predicate Unchecked(fs: seq<Field>) {
    forall i :: 0 <= i < |fs| ==> fs[i].htype != Required && !fs[i].FixedCount()
  }

  lemma {:induction false} UncheckedMergeLoop(fs: seq<Field>, i: nat, st: LoopState, m: seq<Slot>)
    requires Unchecked(fs) && i <= |fs| == |st.slots| == |m|
    ensures MergeLoop(fs, i, st, m) ==
            match MergeFields(fs, i, st.slots, m)
            case None => None
            case Some(r) => Some(st.(slots := r))
    decreases |fs| - i
  {
    hide MergeSlot;
    if i < |fs| {
      var st1 := MergeState(fs, i, st, m);
      if st1.Some? {
        UncheckedMergeLoop(fs, i + 1, st1.value, m);
      }
    }
  }

  /** Merge semantics: an encoding followed by any bytes, decoded over a struct, is the encoding
      merged into the struct and then the bytes decoded over the result. */
  lemma DecodeConcatenated(fs: seq<Field>, cur: seq<Slot>, m: seq<Slot>, t: bytes)
    requires WfDesc(fs) && Unchecked(fs) && |fs| == |cur| == |m|
    requires TypedMsg(fs, 0, m) && Addressable(Enc(fs, m))
    ensures NoInit(fs, cur, Enc(fs, m).value + t) ==
            match Merge(fs, cur, m)
            case None => None
            case Some(r) => NoInit(fs, r, t)
  {
    hide DecLoop, MergeLoop, MergeFields, EncFields, WfDesc, Unchecked, TypedMsg;
    LoopMerges(fs, 0, StartState(cur), m, t);
    UncheckedMergeLoop(fs, 0, StartState(cur), m);
  }

  /** Two concatenated encodings decode as both messages merged, the second over the first. */
  lemma DecodeTwo(fs: seq<Field>, a: seq<Slot>, b: seq<Slot>)
    requires WfDesc(fs) && Unchecked(fs) && |fs| == |a| == |b|
    requires TypedMsg(fs, 0, a) && Addressable(Enc(fs, a)) && TypedMsg(fs, 0, b) && Addressable(Enc(fs, b))
    ensures Decode(fs, Enc(fs, a).value + Enc(fs, b).value) ==
            if !ReadableFields(fs, 0, a) then None
            else
              match Merge(fs, NormMsg(fs, a), b)
              case None => None
              case Some(r) => Some((r, []))
  {
    hide NoInit, MergeFields, NormMsg, ReadableFields, WfDesc, Unchecked, TypedMsg;
    DecodeConcatenated(fs, DefaultMsg(fs, 0), a, Enc(fs, b).value);
    FieldsIntoFresh(fs, 0, a);
    PartMsgStart(fs, a);
    if ReadableFields(fs, 0, a) {
      NoInitMerges(fs, NormMsg(fs, a), b);
    }
  }

  /** What merging does to each slot: only its own fields change it. */
  lemma {:induction false} MergeFieldsAt(fs: seq<Field>, i: nat, cur: seq<Slot>, m: seq<Slot>, k: nat)
    requires i <= |fs| == |cur| == |m| && k < |fs|
    requires MergeFields(fs, i, cur, m).Some?
    requires forall j :: i <= j < |fs| ==> SlotOf(fs, j) != k
    ensures MergeFields(fs, i, cur, m).value[k] == cur[k]
    decreases |fs| - i
  {
    hide MergeSlot;
    if i < |fs| {
      var s := MergeSlot(fs[i], cur[SlotOf(fs, i)], m[SlotOf(fs, i)]).value;
      MergeFieldsAt(fs, i + 1, cur[SlotOf(fs, i) := s], m, k);
    }
  }

  lemma {:induction false} MergeFieldsOwn(fs: seq<Field>, i: nat, cur: seq<Slot>, m: seq<Slot>, k: nat)
    requires i <= k < |fs| == |cur| == |m| && fs[k].htype != Oneof
    requires MergeFields(fs, i, cur, m).Some?
    ensures MergeSlot(fs[k], cur[k], m[k]) == Some(MergeFields(fs, i, cur, m).value[k])
    decreases |fs| - i
  {
    hide MergeSlot;
    SlotOfIsFirst(fs, i);
    SlotOfIsFirst(fs, k);
    var s := MergeSlot(fs[i], cur[SlotOf(fs, i)], m[SlotOf(fs, i)]).value;
    if i < k {
      OwnSlot(fs, k, i);
      MergeFieldsOwn(fs, i + 1, cur[SlotOf(fs, i) := s], m, k);
    } else {
      forall j | i < j < |fs|
        ensures SlotOf(fs, j) != k
      {
        OwnSlot(fs, k, j);
      }
      MergeFieldsAt(fs, i + 1, cur[k := s], m, k);
    }
  }

  /** No other field uses the memory of a field outside unions. */
  lemma OwnSlot(fs: seq<Field>, k: nat, j: nat)
    requires k < |fs| && j < |fs| && k != j && fs[k].htype != Oneof
    ensures SlotOf(fs, j) != k
  {
    SlotOfIsFirst(fs, j);
  }

  /** Last one wins for scalars, and repeated fields are appended. */
  lemma MergedField(fs: seq<Field>, cur: seq<Slot>, m: seq<Slot>, k: nat)
    requires k < |fs| == |cur| == |m| && fs[k].ltype != Submessage && fs[k].htype != Oneof
    requires Merge(fs, cur, m).Some?
    ensures fs[k].htype != Repeated ==>
              Merge(fs, cur, m).value[k].Payload() == if Emitted(fs[k], m[k]) then m[k].Payload() else cur[k].Payload()
    ensures fs[k].htype == Repeated && fs[k].sizeOffset != 0 ==>
              Merge(fs, cur, m).value[k].Items() == cur[k].Items() + m[k].Items()
  {
    hide MergeFields, IsZeroValue;
    MergeFieldsOwn(fs, 0, cur, m, k);
    ScalarItemsMerge(fs[k], m[k].Items());
  }

  lemma NoItemsStay(f: Field, items: seq<Value>)
    requires items == []
    ensures NormItems(f, items) == []
  {
  }

  lemma {:induction false} ScalarItemsMerge(f: Field, items: seq<Value>)
    requires f.ltype != Submessage
    ensures MergeItems(f, items).Some? ==> MergeItems(f, items) == Some(items)
  {
    if items != [] {
      ScalarItemsMerge(f, items[1..]);
      assert [items[0]] + items[1..] == items;
    }
  }

  /** Elements of any kind, submessages included, are appended in canonical form. */
  lemma MergedItems(fs: seq<Field>, cur: seq<Slot>, m: seq<Slot>, k: nat)
    requires WfDesc(fs) && k < |fs| == |cur| == |m|
    requires fs[k].htype == Repeated && TypedSlot(fs[k], m[k]) && EncSlot(fs[k], m[k]).Some?
    requires Merge(fs, cur, m).Some?
    ensures Merge(fs, cur, m).value[k].Items() ==
            if fs[k].sizeOffset == 0 then NormItems(fs[k], m[k].Items())
            else cur[k].Items() + NormItems(fs[k], m[k].Items())
  {
    hide MergeFields, MergeItems, NormItems, EncArray, ReadableItems, WfDesc, TypedValue;
    var f, items := fs[k], m[k].Items();
    WfDescField(fs, k);
    MergeFieldsOwn(fs, 0, cur, m, k);
    ArrayFits(f, items);
    if items == [] {
      NoItemsStay(f, items);
    } else {
      ItemsIntoFresh(f, items);
    }
  }

  /** A submessage outside arrays and unions is merged, recursively, into the one already there. */
  lemma MergedSubmessage(fs: seq<Field>, cur: seq<Slot>, m: seq<Slot>, k: nat)
    requires k < |fs| == |cur| == |m| && fs[k].ltype == Submessage
    requires fs[k].htype != Oneof && fs[k].htype != Repeated && Emitted(fs[k], m[k])
    requires cur[k].Payload().Msg? && Shaped(fs[k].sub, cur[k].Payload().slots)
    requires Merge(fs, cur, m).Some?
    ensures m[k].Payload().Msg? && |m[k].Payload().slots| == |fs[k].sub|
    ensures var r := Merge(fs[k].sub, cur[k].Payload().slots, m[k].Payload().slots);
            r.Some? && Merge(fs, cur, m).value[k].Payload() == Msg(r.value)
  {
    hide MergeFields, IsZeroValue;
    MergeFieldsOwn(fs, 0, cur, m, k);
  }

  /** None of the fields from i on that use slot k is the union member that is set. */
  predicate NoneSet(fs: seq<Field>, i: nat, m: seq<Slot>, k: nat)
    requires |fs| == |m| && k < |fs|
  {
    forall j :: i <= j < |fs| && SlotOf(fs, j) == k ==> fs[j].htype == Oneof && m[k].Which() != fs[j].tag
  }

  lemma {:induction false} MergeFieldsUnset(fs: seq<Field>, i: nat, cur: seq<Slot>, m: seq<Slot>, k: nat)
    requires i <= |fs| == |cur| == |m| && k < |fs|
    requires MergeFields(fs, i, cur, m).Some? && NoneSet(fs, i, m, k)
    ensures MergeFields(fs, i, cur, m).value[k] == cur[k]
    decreases |fs| - i
  {
    if i < |fs| {
      var s := MergeSlot(fs[i], cur[SlotOf(fs, i)], m[SlotOf(fs, i)]).value;
      MergeFieldsUnset(fs, i + 1, cur[SlotOf(fs, i) := s], m, k);
    }
  }

  lemma {:induction false} MergeFieldsMember(fs: seq<Field>, j: nat, cur: seq<Slot>, m: seq<Slot>, i: nat)
    requires WfDesc(fs) && j <= i < |fs| == |cur| == |m| && fs[i].htype == Oneof
    requires m[SlotOf(fs, i)].Which() == fs[i].tag && MergeFields(fs, j, cur, m).Some?
    ensures MergeSlot(fs[i], cur[SlotOf(fs, i)], m[SlotOf(fs, i)]) == Some(MergeFields(fs, j, cur, m).value[SlotOf(fs, i)])
    decreases i - j
  {
    hide MergeSlot, WfDesc;
    var k, kj := SlotOf(fs, i), SlotOf(fs, j);
    var s := MergeSlot(fs[j], cur[kj], m[kj]).value;
    if j < i {
      if kj == k {
        SlotOfIsFirst(fs, i);
        SlotOfIsFirst(fs, j);
        TagsDiffer(fs, j, i);
        OtherMember(fs[j], cur[k], m[k]);
      }
      MergeFieldsMember(fs, j + 1, cur[kj := s], m, i);
    } else {
      forall l | i < l < |fs| && SlotOf(fs, l) == k
        ensures fs[l].htype == Oneof && m[k].Which() != fs[l].tag
      {
        SlotOfIsFirst(fs, i);
        SlotOfIsFirst(fs, l);
        TagsDiffer(fs, i, l);
      }
      MergeFieldsUnset(fs, i + 1, cur[k := s], m, k);
    }
  }

  lemma TagsDiffer(fs: seq<Field>, i: nat, j: nat)
    requires WfDesc(fs) && i < j < |fs|
    ensures fs[i].tag != fs[j].tag
  {
  }

  lemma OtherMember(f: Field, cur: Slot, new_: Slot)
    requires f.htype == Oneof && new_.Which() != f.tag
    ensures MergeSlot(f, cur, new_) == Some(cur)
  {
  }

  /** A union switches to the member that was encoded. The same submessage member again is merged;
      any other value starts from fresh memory. */
  lemma MergedUnion(fs: seq<Field>, cur: seq<Slot>, m: seq<Slot>, i: nat)
    requires WfDesc(fs) && i < |fs| == |cur| == |m| && fs[i].htype == Oneof
    requires m[SlotOf(fs, i)].Which() == fs[i].tag && Merge(fs, cur, m).Some?
    ensures var f, k := fs[i], SlotOf(fs, i);
            var r := Merge(fs, cur, m).value[k];
            && r.Which() == f.tag
            && (f.ltype != Submessage ==> r.Payload() == m[k].Payload())
            && (cur[k].Which() == f.tag ==> MergeValue(f, cur[k].Payload(), m[k].Payload()) == Some(r.Payload()))
            && (cur[k].Which() != f.tag ==> MergeValue(f, Stale, m[k].Payload()) == Some(r.Payload()))
  {
    hide MergeFields, WfDesc;
    MergeFieldsMember(fs, 0, cur, m, i);
  }

  /** The submessage that a union holds is merged, field by field, when it is received again. */
  lemma MergedUnionSubmessage(fs: seq<Field>, cur: seq<Slot>, m: seq<Slot>, i: nat)
    requires WfDesc(fs) && i < |fs| == |cur| == |m| && fs[i].htype == Oneof && fs[i].ltype == Submessage
    requires m[SlotOf(fs, i)].Which() == fs[i].tag && cur[SlotOf(fs, i)].Which() == fs[i].tag
    requires cur[SlotOf(fs, i)].Payload().Msg? && Shaped(fs[i].sub, cur[SlotOf(fs, i)].Payload().slots)
    requires Merge(fs, cur, m).Some?
    ensures var k := SlotOf(fs, i);
            && m[k].Payload().Msg? && |m[k].Payload().slots| == |fs[i].sub|
            && var r := Merge(fs[i].sub, cur[k].Payload().slots, m[k].Payload().slots);
               r.Some? && Merge(fs, cur, m).value[k] == Union(fs[i].tag, Msg(r.value))
  {
    hide MergeFields, WfDesc;
    MergeFieldsMember(fs, 0, cur, m, i);
  }

  /** Any other member starts from default values: nothing of what the union held is left. */
  lemma MergedUnionSwitch(fs: seq<Field>, cur: seq<Slot>, m: seq<Slot>, i: nat)
    requires WfDesc(fs) && i < |fs| == |cur| == |m| && fs[i].htype == Oneof
    requires m[SlotOf(fs, i)].Which() == fs[i].tag && cur[SlotOf(fs, i)].Which() != fs[i].tag
    requires TypedSlot(fs[i], m[SlotOf(fs, i)]) && EncSlot(fs[i], m[SlotOf(fs, i)]).Some?
    requires Merge(fs, cur, m).Some?
    ensures var k := SlotOf(fs, i);
            Merge(fs, cur, m).value[k] == Union(fs[i].tag, NormValue(fs[i], m[k].Payload()))
  {
    hide MergeFields, WfDesc, EncValue, MergeValue, NormValue, ReadableValue, TypedValue;
    WfDescField(fs, i);
    MergeFieldsMember(fs, 0, cur, m, i);
    ValueIntoFresh(fs[i], Stale, m[SlotOf(fs, i)].Payload());
  }

  /** A union of which no member was encoded stays as it was. */
  lemma MergedUnsetUnion(fs: seq<Field>, cur: seq<Slot>, m: seq<Slot>, k: nat)
    requires k < |fs| == |cur| == |m| && NoneSet(fs, 0, m, k) && Merge(fs, cur, m).Some?
    ensures Merge(fs, cur, m).value[k] == cur[k]
  {
    MergeFieldsUnset(fs, 0, cur, m, k);
  }

  // ---- framing ----

  /** A null-terminated encoding decodes before arbitrary trailing bytes. */
  lemma NullTerminated(fs: seq<Field>, m: seq<Slot>, t: bytes)
    requires WfDesc(fs) && |fs| == |m| && TypedMsg(fs, 0, m) && Addressable(Enc(fs, m))
    ensures Decode(fs, Enc(fs, m).value + [0] + t) ==
            if ReadableFields(fs, 0, m) then Some((NormMsg(fs, m), t)) else None
  {
    hide NoInit, MergeFields, EncFields, NormMsg, ReadableFields, WfDesc, TypedMsg;
    MessageThenZero(fs, DefaultMsg(fs, 0), m, t);
    FieldsIntoFresh(fs, 0, m);
    PartMsgStart(fs, m);
  }

  /** What follows a terminator inside a submessage is passed over with it. */
  lemma TerminatorInSubmessage(f: Field, cur: Value, v: Value, junk: bytes, t: bytes)
    requires WfField(f) && f.ltype == Submessage && TypedValue(f, v) && EncFields(f.sub, 0, v.slots).Some?
    requires |EncFields(f.sub, 0, v.slots).value| + 1 + |junk| < TWO_TO_THE_32
    ensures var chunk := EncFields(f.sub, 0, v.slots).value + [0] + junk;
            DecValue(f, cur, EncLength(|chunk|) + chunk + t) == WithRest(MergeValue(f, cur, v), t)
  {
    hide DecLoop, DecValue, MergeFields, EncFields, EncLength, WfDesc;
    var e, base := EncFields(f.sub, 0, v.slots).value, SubBase(f, cur);
    MessageThenZero(f.sub, base, v.slots, junk);
    ChunkDecodes(f, cur, e + [0] + junk, Merge(f.sub, base, v.slots), t);
  }

  lemma MessageThenZero(fs: seq<Field>, cur: seq<Slot>, m: seq<Slot>, junk: bytes)
    requires WfDesc(fs) && |fs| == |cur| == |m| && TypedMsg(fs, 0, m) && Addressable(Enc(fs, m))
    ensures NoInit(fs, cur, Enc(fs, m).value + [0] + junk) ==
            match Merge(fs, cur, m)
            case None => None
            case Some(r) => Some((r, junk))
  {
    hide DecLoop, MergeLoop, MergeFields, EncFields, WfDesc, TypedMsg;
    var st := StartState(cur);
    LoopMerges(fs, 0, st, m, [0] + junk);
    assert Enc(fs, m).value + [0] + junk == Enc(fs, m).value + ([0] + junk);
    MergeLoopEffect(fs, 0, st, m);
    if MergeLoop(fs, 0, st, m).Some? {
      ZeroEndsLoop(fs, MergeLoop(fs, 0, st, m).value, junk);
    }
  }

  /** The same in a delimited message, which ends where its length says. */
  lemma TerminatorInDelimited(fs: seq<Field>, m: seq<Slot>, junk: bytes, t: bytes)
    requires WfDesc(fs) && |fs| == |m| && TypedMsg(fs, 0, m) && Enc(fs, m).Some?
    requires |Enc(fs, m).value| + 1 + |junk| < TWO_TO_THE_32
    ensures var chunk := Enc(fs, m).value + [0] + junk;
            DecodeDelimited(fs, EncLength(|chunk|) + chunk + t) ==
            if ReadableFields(fs, 0, m) then Some((NormMsg(fs, m), t)) else None
  {
    hide Decode, Enc, EncLength, WfDesc, TypedMsg, NormMsg, ReadableFields, Dec32;
    var chunk := Enc(fs, m).value + [0] + junk;
    NullTerminated(fs, m, junk);
    ChunkRoundTrip(chunk, t);
  }

  /** The bytes of a list of messages written one after the other by the delimited encoder. */
  function EncDelimitedAll(fs: seq<Field>, ms: seq<seq<Slot>>): Option<bytes> {
    if ms == [] then Some([])
    else if |ms[0]| != |fs| then None
    else Join(WithLength(Enc(fs, ms[0])), EncDelimitedAll(fs, ms[1..]))
  }

  /** Reads so many delimited messages. */
  function DecodeDelimitedAll(fs: seq<Field>, n: nat, s: bytes): Option<(seq<seq<Slot>>, bytes)> {
    if n == 0 then Some(([], s))
    else
      match DecodeDelimited(fs, s)
      case None => None
      case Some((m, rest)) =>
        match DecodeDelimitedAll(fs, n - 1, rest)
        case None => None
        case Some((ms, rest')) => Some(([m] + ms, rest'))
  }

  lemma DelimitedRoundTrip(fs: seq<Field>, m: seq<Slot>, t: bytes)
    requires WfDesc(fs) && |fs| == |m| && TypedMsg(fs, 0, m) && Addressable(Enc(fs, m))
    ensures DecodeDelimited(fs, WithLength(Enc(fs, m)).value + t) ==
            if ReadableFields(fs, 0, m) && ShortChunk(Enc(fs, m)) then Some((NormMsg(fs, m), t)) else None
  {
    hide Decode, EncFields, EncLength, DecChunk, NormMsg, ReadableFields;
    MessageRoundTrip(fs, m);
    ChunkRoundTrip(Enc(fs, m).value, t);
  }

  /** A message whose delimited encoding can be read. */
  ghost predicate Decodable(fs: seq<Field>, m: seq<Slot>) {
    && |m| == |fs| && TypedMsg(fs, 0, m)
    && Enc(fs, m).Some? && ShortChunk(Enc(fs, m)) && ReadableFields(fs, 0, m)
  }

  /** Framing: any list of messages written by the delimited encoder is read back one call at a
      time, in canonical form, and what follows them is left in the stream. */
  lemma {:induction false} DelimitedListRoundTrip(fs: seq<Field>, ms: seq<seq<Slot>>, ns: seq<seq<Slot>>, t: bytes)
    requires WfDesc(fs) && |ms| == |ns|
    requires forall k :: 0 <= k < |ms| ==> Decodable(fs, ms[k])
    requires forall k :: 0 <= k < |ms| ==> |ms[k]| == |fs| && ns[k] == NormMsg(fs, ms[k])
    ensures EncDelimitedAll(fs, ms).Some?
    ensures DecodeDelimitedAll(fs, |ms|, EncDelimitedAll(fs, ms).value + t) == Some((ns, t))
  {
    hide WfDesc, TypedMsg, Enc, DecodeDelimited, NormMsg, ReadableFields, EncLength;
    if ms == [] {
      assert [] + t == t;
    } else {
      assert Decodable(fs, ms[0]);
      DelimitedListRoundTrip(fs, ms[1..], ns[1..], t);
      var e, later := WithLength(Enc(fs, ms[0])).value, EncDelimitedAll(fs, ms[1..]).value;
      assert EncDelimitedAll(fs, ms).value + t == e + (later + t);
      DelimitedRoundTrip(fs, ms[0], later + t);
      assert [ns[0]] + ns[1..] == ns;
    }
  }

  // ---- packed and unpacked arrays ----

  /** Some elements of an array, written as one packed run or as one tagged element. */
  datatype Chunk = Packed(items: seq<Value>) | Single(item: Value) {
    function Elements(): seq<Value> { if Packed? then items else [item] }

    /** A packed run that the decoder can read the length of. */
    predicate Readable(f: Field) { Packed? ==> ShortChunk(EncPacked(f, items)) }
  }

  function EncChunk(f: Field, c: Chunk): Option<bytes> {
    match c
    case Packed(items) => Join(Some(EncTag(WT_STRING, f.tag)), WithLength(EncPacked(f, items)))
    case Single(item) => EncTagged(f, item)
  }

  function EncChunks(f: Field, cs: seq<Chunk>): Option<bytes> {
    if cs == [] then Some([]) else Join(EncChunk(f, cs[0]), EncChunks(f, cs[1..]))
  }

  function ElementsOf(cs: seq<Chunk>): seq<Value> {
    if cs == [] then [] else cs[0].Elements() + ElementsOf(cs[1..])
  }

  predicate AllReadable(f: Field, cs: seq<Chunk>) {
    forall k :: 0 <= k < |cs| ==> cs[k].Readable(f)
  }

  lemma ChunkMerges(fs: seq<Field>, i: nat, st: LoopState, c: Chunk, t: bytes)
    requires WfDesc(fs) && i < |fs| == |st.slots| && fs[i].htype == Repeated && fs[i].ltype.Packable()
    requires TypedItems(fs[i], c.Elements()) && Addressable(EncChunk(fs[i], c))
    ensures DecLoop(fs, st, EncChunk(fs[i], c).value + t) ==
            Continue(fs, if c.Readable(fs[i]) then Receive(fs, i, st, c.Elements()) else None, t)
  {
    hide DecLoop, WfDesc, EncTag, EncLength, Receive, EncValue, MergeItems;
    match c
    case Packed(items) => PackedMerges(fs, i, st, items, t);
    case Single(item) =>
      PackableItemsMerge(fs[i], [item]);
      SingleIsUnpacked(fs[i], item);
      UnpackedMerges(fs, i, st, [item], t);
  }

  lemma SingleIsUnpacked(f: Field, item: Value)
    requires EncTagged(f, item).Some?
    ensures EncUnpacked(f, [item]) == EncTagged(f, item)
  {
    var e := EncTagged(f, item).value;
    assert EncUnpacked(f, [item]) == Join(Some(e), Some([]));
    assert e + [] == e;
  }

  /** Packed and unpacked agree: however the elements of an array are split into packed runs
      and single elements, empty runs included, the same array is received; or none when they do
      not fit or a run is too long. */
  lemma {:induction false} ChunksMerge(fs: seq<Field>, i: nat, st: LoopState, cs: seq<Chunk>, t: bytes)
    requires WfDesc(fs) && i < |fs| == |st.slots| && fs[i].htype == Repeated && fs[i].ltype.Packable()
    requires forall k :: 0 <= k < |cs| ==> TypedItems(fs[i], cs[k].Elements())
    requires cs != [] && Addressable(EncChunks(fs[i], cs))
    ensures DecLoop(fs, st, EncChunks(fs[i], cs).value + t) ==
            Continue(fs, if AllReadable(fs[i], cs) then Receive(fs, i, st, ElementsOf(cs)) else None, t)
    decreases |cs|
  {
    hide DecLoop, WfDesc, EncChunk, Receive, TypedItems, Chunk.Readable, Chunk.Elements;
    var f := fs[i];
    var us := cs[0].Elements();
    var later := EncChunks(f, cs[1..]).value;
    assert EncChunks(f, cs).value + t == EncChunk(f, cs[0]).value + (later + t);
    ChunkMerges(fs, i, st, cs[0], later + t);
    if |cs| == 1 {
      assert later + t == t && cs[1..] == [] && us + [] == us;
    } else {
      var st1 := Receive(fs, i, st, us);
      ReceiveCompose(fs, i, st, us, ElementsOf(cs[1..]));
      if st1.Some? {
        ChunksMerge(fs, i, st1.value, cs[1..], t);
      }
    }
  }
}
