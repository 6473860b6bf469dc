/** Whatever bytes arrive, a decoded struct stays within the limits its descriptor declares. */
module Limits {
  import opened Bytes
  import opened Varint
  import opened Descriptor
  import opened Encoding
  import opened Decoding
  import opened Merging
  import opened RoundTrip

  ghost predicate FitsValue(f: Field, v: Value)
    decreases f, 0
  {
    if f.ltype == Submessage then v.Msg? && |v.slots| == |f.sub| && FitsMsg(f.sub, v.slots)
    else FitsScalar(f, v)
  }

  /** Counts are within the array size; the elements of a fixed-count array may still be
      unspecified. */
  ghost predicate FitsSlot(f: Field, s: Slot)
    decreases f, 1
  {
    match f.htype
    case Required => s.Plain? && FitsValue(f, s.v)
    case Optional => if f.Singular() then s.Plain? && FitsValue(f, s.v) else s.Opt? && FitsValue(f, s.v)
    case Repeated =>
      && s.Array?
      && (if f.FixedCount() then |s.items| == f.arraySize else |s.items| <= f.arraySize)
      && forall k :: 0 <= k < |s.items| ==> (f.FixedCount() && s.items[k] == Stale) || FitsValue(f, s.items[k])
    case Oneof => s.Union? && (s.which == f.tag ==> FitsValue(f, s.v))
  }

  ghost predicate FitsMsg(fs: seq<Field>, m: seq<Slot>)
    decreases fs
  {
    Shaped(fs, m) && forall i :: 0 <= i < |fs| ==> FitsSlot(fs[i], m[SlotOf(fs, i)])
  }

  lemma {:induction false} DefaultFits(fs: seq<Field>)
    requires WfDesc(fs)
    ensures FitsMsg(fs, DefaultMsg(fs, 0))
    decreases fs
  {
    DefaultIsShaped(fs);
    forall i | 0 <= i < |fs|
      ensures FitsSlot(fs[i], DefaultMsg(fs, 0)[SlotOf(fs, i)])
    {
      WfDescField(fs, i);
      SlotOfIsFirst(fs, i);
      DefaultMsgAt(fs, 0, SlotOf(fs, i));
      DefaultSlotFits(fs[i]);
    }
  }

  lemma {:induction false} DefaultSlotFits(f: Field)
    requires WfField(f)
    ensures FitsSlot(f, DefaultSlot(f))
    ensures f.htype == Oneof ==> DefaultSlot(f) == Union(0, Stale)
    decreases f
  {
    if f.ltype == Submessage {
      DefaultFits(f.sub);
    }
  }

  lemma DecScalarFits(f: Field, s: bytes)
    requires FieldOk(f) && DecScalar(f, s).Some?
    ensures FitsScalar(f, DecScalar(f, s).value.0)
  {
    hide Dec32, DecVarint;
    Pow256Values();
    if f.ltype == Fixed32 {
      LeValueBound(Take(s, 4).value.0);
    } else if f.ltype == Fixed64 {
      LeValueBound(Take(s, 8).value.0);
    }
  }

  lemma {:induction false} DecPackedFits(f: Field, room: nat, s: bytes)
    requires FieldOk(f) && f.ltype != Submessage && DecPacked(f, room, s).Some?
    ensures forall k :: 0 <= k < |DecPacked(f, room, s).value| ==> FitsValue(f, DecPacked(f, room, s).value[k])
    decreases |s|
  {
    hide DecScalar;
    if s != [] {
      DecScalarFits(f, s);
      DecPackedFits(f, room - 1, DecScalar(f, s).value.1);
    }
  }

  /** A value that submessages may be merged into. */
  ghost predicate BaseFits(f: Field, cur: Value) {
    f.ltype == Submessage && f.htype != Repeated && cur.Msg? && |cur.slots| == |f.sub| ==> FitsMsg(f.sub, cur.slots)
  }

  lemma {:induction false} DecValueFits(f: Field, cur: Value, s: bytes)
    requires WfField(f) && BaseFits(f, cur) && DecValue(f, cur, s).Some?
    ensures FitsValue(f, DecValue(f, cur, s).value.0)
    decreases |s|, 0
  {
    if f.ltype != Submessage {
      DecScalarFits(f, s);
    } else {
      hide DecLoop, DecChunk, FitsMsg;
      DefaultFits(f.sub);
      var sub := DecChunk(s).value.0;
      LoopFits(f.sub, StartState(SubBase(f, cur)), sub);
    }
  }

  lemma AppendFits(f: Field, slot: Slot, count: nat, vs: seq<Value>, rest: bytes)
    requires f.htype == Repeated && FitsSlot(f, slot)
    requires forall k :: 0 <= k < |vs| ==> FitsValue(f, vs[k])
    requires !f.FixedCount() ==> |slot.Items()| + |vs| <= f.arraySize
    ensures FitsSlot(f, Append(f, slot, count, vs, rest).0)
  {
    hide FitsValue;
  }

  lemma {:induction false} DecStaticFits(f: Field, wireType: nat, slot: Slot, count: nat, s: bytes)
    requires WfField(f) && FitsSlot(f, slot) && DecStatic(f, wireType, slot, count, s).Some?
    ensures FitsSlot(f, DecStatic(f, wireType, slot, count, s).value.0)
    ensures f.htype == Oneof ==> DecStatic(f, wireType, slot, count, s).value.0.Which() == f.tag
    decreases |s|, 1
  {
    hide DecValue, DecPacked, DecChunk, Append;
    if f.htype == Repeated {
      var have := if f.FixedCount() then count else |slot.Items()|;
      var room := if have < f.arraySize then f.arraySize - have else 0;
      if wireType == WT_STRING && f.ltype.Packable() {
        var (sub, rest) := DecChunk(s).value;
        DecPackedFits(f, room, sub);
        AppendFits(f, slot, count, DecPacked(f, room, sub).value, rest);
      } else {
        DecValueFits(f, Stale, s);
        var (v, rest) := DecValue(f, Stale, s).value;
        AppendFits(f, slot, count, [v], rest);
      }
    } else {
      DecValueFits(f, CurrentValue(f, slot), s);
    }
  }

  lemma {:induction false} DecFieldFits(fs: seq<Field>, i: nat, st: LoopState, wireType: nat, s: bytes)
    requires WfDesc(fs) && i < |fs| == |st.slots| && FitsMsg(fs, st.slots) && DecField(fs, i, st, wireType, s).Some?
    ensures FitsMsg(fs, DecField(fs, i, st, wireType, s).value.0.slots)
    decreases |s|, 2
  {
    hide DecStatic, FitsSlot, Shaped, SlotOf;
    var f, k := fs[i], SlotOf(fs, i);
    WfDescField(fs, i);
    var count := EnterField(fs, i, st).value.fixedCount;
    DecStaticFits(f, wireType, st.slots[k], count, s);
    var slot := DecStatic(f, wireType, st.slots[k], count, s).value.0;
    StillShaped(fs, st.slots, i, slot);
    forall j | 0 <= j < |fs|
      ensures FitsSlot(fs[j], st.slots[k := slot][SlotOf(fs, j)])
    {
      if j != i && SlotOf(fs, j) == k {
        SlotOfIsFirst(fs, i);
        SlotOfIsFirst(fs, j);
        OtherMemberFits(f, fs[j], slot);
      }
    }
  }

  /** A union that holds another member asks nothing of this one. */
  lemma OtherMemberFits(f: Field, g: Field, s: Slot)
    requires f.htype == Oneof && g.htype == Oneof && FitsSlot(f, s) && s.Which() == f.tag != g.tag
    ensures FitsSlot(g, s)
  {
  }

  lemma {:induction false} LoopFits(fs: seq<Field>, st: LoopState, s: bytes)
    requires WfDesc(fs) && |fs| == |st.slots| && FitsMsg(fs, st.slots) && DecLoop(fs, st, s).Some?
    ensures FitsMsg(fs, DecLoop(fs, st, s).value.0.slots)
    decreases |s|, 3
  {
    hide DecTag, DecField, FitsMsg, WfDesc, SkipField;
    if s != [] && DecTag(s).GoodTag? {
      var GoodTag(tag, wireType, rest) := DecTag(s);
      var i := FindTag(fs, tag, 0);
      if i < |fs| {
        DecFieldFits(fs, i, st, wireType, rest);
      }
      var (st', rest') := DecRecord(fs, st, tag, wireType, rest).value;
      LoopFits(fs, st', rest');
    }
  }

  /** For every byte string: what decodes at all stays within the declared limits. */
  lemma DecodedFits(fs: seq<Field>, cur: seq<Slot>, s: bytes)
    requires WfDesc(fs) && |fs| == |cur| && FitsMsg(fs, cur) && NoInit(fs, cur, s).Some?
    ensures FitsMsg(fs, NoInit(fs, cur, s).value.0)
  {
    hide DecLoop, FitsMsg, WfDesc;
    LoopFits(fs, StartState(cur), s);
  }

  // ---- what was received can be sent again ----

  lemma {:induction false} FittingValueEncodes(f: Field, v: Value)
    requires WfField(f) && FitsValue(f, v) && TypedValue(f, v)
    ensures EncValue(f, v).Some? && (ShortChunk(EncValue(f, v)) ==> ReadableValue(f, v))
    decreases f, 0, 0
  {
    if f.ltype == Submessage {
      FittingFieldsEncode(f.sub, 0, v.slots);
    }
  }

  lemma {:induction false} FittingItemsEncode(f: Field, items: seq<Value>)
    requires WfField(f) && TypedItems(f, items)
    requires forall k :: 0 <= k < |items| ==> FitsValue(f, items[k])
    ensures EncPacked(f, items).Some? && EncUnpacked(f, items).Some?
    ensures items == [] ==> EncPacked(f, items) == Some([])
    ensures ShortChunk(EncPacked(f, items)) || ShortChunk(EncUnpacked(f, items)) ==> ReadableItems(f, items)
    decreases f, 1, |items|
  {
    hide FitsValue, EncValue, ReadableValue, TypedValue;
    if items != [] {
      FittingValueEncodes(f, items[0]);
      FittingItemsEncode(f, items[1..]);
    }
  }

  lemma FittingSlotEncodes(f: Field, s: Slot)
    requires WfField(f) && FitsSlot(f, s) && TypedSlot(f, s)
    ensures EncSlot(f, s).Some?
    ensures ShortChunk(EncSlot(f, s)) ==> ReadableSlot(f, s)
    decreases f, 2, 0
  {
    hide FitsValue, EncValue, ReadableValue, TypedValue, IsZeroValue, ReadableItems, EncPacked, EncUnpacked;
    if f.htype == Repeated {
      StaleIsUntyped(f);
      FittingItemsEncode(f, s.items);
    } else if Emitted(f, s) {
      FittingValueEncodes(f, s.v);
    }
  }

  lemma StaleIsUntyped(f: Field)
    ensures !TypedValue(f, Stale)
  {
  }

  lemma {:induction false} FittingFieldsEncode(fs: seq<Field>, i: nat, m: seq<Slot>)
    requires WfDesc(fs) && i <= |fs| == |m| && FitsMsg(fs, m) && TypedMsg(fs, i, m)
    ensures EncFields(fs, i, m).Some? && (ShortChunk(EncFields(fs, i, m)) ==> ReadableFields(fs, i, m))
    decreases fs, 0, |fs| - i
  {
    hide FitsSlot, TypedSlot, EncSlot, ReadableSlot;
    if i < |fs| {
      WfDescField(fs, i);
      FittingSlotEncodes(fs[i], m[SlotOf(fs, i)]);
      FittingFieldsEncode(fs, i + 1, m);
    }
  }

  // ---- which messages are complete ----

  /** Whether a slot holds a value that the encoder may look at. */
  predicate Present(f: Field, s: Slot) {
    match f.htype
    case Optional => f.Singular() || (s.Opt? && s.has)
    case Oneof => s.Which() == f.tag
    case _ => true
  }

  /** No element of a fixed-count array is left unspecified, at any level. */
  ghost predicate FilledValue(f: Field, v: Value)
    decreases f, 0
  {
    f.ltype == Submessage && v.Msg? && |v.slots| == |f.sub| ==> Filled(f.sub, v.slots)
  }

  ghost predicate FilledSlot(f: Field, s: Slot)
    decreases f, 1
  {
    if f.htype == Repeated then
      forall k :: 0 <= k < |s.Items()| ==> s.Items()[k] != Stale && FilledValue(f, s.Items()[k])
    else Present(f, s) ==> FilledValue(f, s.Payload())
  }

  ghost predicate Filled(fs: seq<Field>, m: seq<Slot>)
    requires |m| == |fs|
    decreases fs
  {
    forall i :: 0 <= i < |fs| ==> FilledSlot(fs[i], m[SlotOf(fs, i)])
  }

  lemma {:induction false} TypedValueIffFilled(f: Field, v: Value)
    requires WfField(f) && FitsValue(f, v)
    ensures TypedValue(f, v) <==> FilledValue(f, v)
    decreases f, 0, 0
  {
    if f.ltype == Submessage {
      TypedIffFilled(f.sub, v.slots);
    }
  }

  lemma TypedSlotIffFilled(f: Field, s: Slot)
    requires WfField(f) && FitsSlot(f, s)
    ensures TypedSlot(f, s) <==> FilledSlot(f, s)
    decreases f, 1, 0
  {
    hide FitsValue, TypedValue, FilledValue;
    if f.htype == Repeated {
      StaleIsUntyped(f);
      forall k | 0 <= k < |s.items|
        ensures TypedValue(f, s.items[k]) <==> s.items[k] != Stale && FilledValue(f, s.items[k])
      {
        if s.items[k] != Stale {
          TypedValueIffFilled(f, s.items[k]);
        }
      }
      assert s.Items() == s.items;
    } else if Present(f, s) {
      TypedValueIffFilled(f, s.Payload());
    }
  }

  lemma FitsAt(fs: seq<Field>, m: seq<Slot>, i: nat)
    requires FitsMsg(fs, m) && i < |fs|
    ensures |m| == |fs| && FitsSlot(fs[i], m[SlotOf(fs, i)]) && (SlotOf(fs, i) != i ==> m[i] == Alias)
  {
    hide FitsSlot;
  }

  lemma {:induction false} TypedFromIffFilled(fs: seq<Field>, i: nat, m: seq<Slot>)
    requires WfDesc(fs) && i <= |fs| == |m| && FitsMsg(fs, m)
    ensures TypedMsg(fs, i, m) <==> forall j :: i <= j < |fs| ==> FilledSlot(fs[j], m[SlotOf(fs, j)])
    decreases fs, 0, |fs| - i
  {
    hide FitsMsg, FitsSlot, FilledSlot, TypedSlot, WfDesc, SlotOf;
    if i < |fs| {
      WfDescField(fs, i);
      FitsAt(fs, m, i);
      TypedSlotIffFilled(fs[i], m[SlotOf(fs, i)]);
      TypedFromIffFilled(fs, i + 1, m);
    }
  }

  /** A struct within its limits is one the encoder can take exactly when it is filled. */
  lemma TypedIffFilled(fs: seq<Field>, m: seq<Slot>)
    requires WfDesc(fs) && FitsMsg(fs, m)
    ensures |m| == |fs| && (TypedMsg(fs, 0, m) <==> Filled(fs, m))
    decreases fs, 1, 0
  {
    TypedFromIffFilled(fs, 0, m);
  }

  /** Whatever was decoded, from any bytes at all, can be encoded again once its fixed-count
      arrays are filled; and that encoding decodes to the message's canonical form, unless a
      length-delimited part of it grew too long. */
  lemma ReceivedCanBeSent(fs: seq<Field>, s: bytes)
    requires WfDesc(fs) && Decode(fs, s).Some? && Filled(fs, Decode(fs, s).value.0)
    ensures var m := Decode(fs, s).value.0;
            && Enc(fs, m).Some?
            && (Addressable(Enc(fs, m)) ==>
                  Decode(fs, Enc(fs, m).value) == if ReadableFields(fs, 0, m) then Some((NormMsg(fs, m), [])) else None)
            && (ShortChunk(Enc(fs, m)) ==> ReadableFields(fs, 0, m))
  {
    hide NoInit, FitsMsg, WfDesc, TypedMsg, ReadableFields, NormMsg, EncFields, Filled;
    DefaultFits(fs);
    DecodedFits(fs, DefaultMsg(fs, 0), s);
    var m := Decode(fs, s).value.0;
    TypedIffFilled(fs, m);
    FittingFieldsEncode(fs, 0, m);
    if Addressable(Enc(fs, m)) {
      MessageRoundTrip(fs, m);
    }
  }

  /** Message types without fixed-count arrays, at any level. */
  ghost predicate Counted(fs: seq<Field>)
    decreases fs
  {
    forall i :: 0 <= i < |fs| ==> !fs[i].FixedCount() && (fs[i].ltype == Submessage ==> Counted(fs[i].sub))
  }

  lemma {:induction false} CountedIsFilled(fs: seq<Field>, m: seq<Slot>)
    requires WfDesc(fs) && Counted(fs) && FitsMsg(fs, m)
    ensures |m| == |fs| && Filled(fs, m)
    decreases fs, 1, 0
  {
    hide FitsSlot, FilledSlot;
    forall i | 0 <= i < |fs|
      ensures FilledSlot(fs[i], m[SlotOf(fs, i)])
    {
      WfDescField(fs, i);
      CountedSlotIsFilled(fs[i], m[SlotOf(fs, i)]);
    }
  }

  lemma CountedSlotIsFilled(f: Field, s: Slot)
    requires WfField(f) && !f.FixedCount() && (f.ltype == Submessage ==> Counted(f.sub)) && FitsSlot(f, s)
    ensures FilledSlot(f, s)
    decreases f, 1, 0
  {
    hide FilledValue;
    if f.htype == Repeated {
      forall k | 0 <= k < |s.items|
        ensures s.items[k] != Stale && FilledValue(f, s.items[k])
      {
        CountedValueIsFilled(f, s.items[k]);
      }
    } else if Present(f, s) {
      CountedValueIsFilled(f, s.Payload());
    }
  }

  lemma CountedValueIsFilled(f: Field, v: Value)
    requires WfField(f) && (f.ltype == Submessage ==> Counted(f.sub)) && FitsValue(f, v)
    ensures v != Stale && FilledValue(f, v)
    decreases f, 0, 0
  {
    if f.ltype == Submessage {
      CountedIsFilled(f.sub, v.slots);
    }
  }

  /** Without fixed-count arrays, everything that decodes can be sent again. */
  lemma CountedCanBeSent(fs: seq<Field>, s: bytes)
    requires WfDesc(fs) && Counted(fs) && Decode(fs, s).Some?
    ensures var m := Decode(fs, s).value.0;
            && Enc(fs, m).Some?
            && (ShortChunk(Enc(fs, m)) ==> Decode(fs, Enc(fs, m).value) == Some((NormMsg(fs, m), [])))
  {
    hide NoInit, FitsMsg, WfDesc, ReadableFields, NormMsg, EncFields, Filled, Counted;
    DefaultFits(fs);
    DecodedFits(fs, DefaultMsg(fs, 0), s);
    CountedIsFilled(fs, Decode(fs, s).value.0);
    ReceivedCanBeSent(fs, s);
  }
}
