/** What comes back when an encoded message is decoded into fresh memory, and when that is the
    same message. */
module RoundTrip {
  import opened Bytes
  import opened Descriptor
  import opened Encoding
  import opened Decoding
  import opened Merging

  /** What is written can be read: every string leaves room for its terminator, and every
      length-delimited part is shorter than 2^32 bytes. */
  predicate ReadableValue(f: Field, v: Value)
    decreases f, 0, 0
  {
    if f.ltype != Submessage then Terminated(f, v)
    else v.Msg? && |v.slots| == |f.sub| && ShortChunk(EncFields(f.sub, 0, v.slots)) && ReadableFields(f.sub, 0, v.slots)
  }

  predicate ReadableItems(f: Field, items: seq<Value>)
    decreases f, 1, |items|
  {
    items == [] || (ReadableValue(f, items[0]) && ReadableItems(f, items[1..]))
  }

  predicate ReadableSlot(f: Field, s: Slot)
    decreases f, 2, 0
  {
    if f.htype == Repeated then
      ReadableItems(f, s.Items()) && (f.ltype.Packable() ==> ShortChunk(EncPacked(f, s.Items())))
    else Emitted(f, s) ==> ReadableValue(f, s.Payload())
  }

  predicate ReadableFields(fs: seq<Field>, i: nat, m: seq<Slot>)
    requires i <= |fs| == |m|
    decreases fs, 0, |fs| - i
  {
    i == |fs| || (ReadableSlot(fs[i], m[SlotOf(fs, i)]) && ReadableFields(fs, i + 1, m))
  }

  // ---- the canonical form of a message ----

  /** What is left of a value: absent fields below it are reset to their defaults. */
  function NormValue(f: Field, v: Value): Value
    decreases f, 3, 0
  {
    if f.ltype == Submessage && v.Msg? && |v.slots| == |f.sub| then Msg(NormMsg(f.sub, v.slots)) else v
  }

  function NormItems(f: Field, items: seq<Value>): (r: seq<Value>)
    ensures |r| == |items|
    decreases f, 4, |items|
  {
    if items == [] then [] else [NormValue(f, items[0])] + NormItems(f, items[1..])
  }

  function NormSlot(f: Field, s: Slot): Slot
    decreases f, 5, 0
  {
    match f.htype
    case Required => Plain(NormValue(f, s.Payload()))
    case Optional =>
      var v := if Emitted(f, s) then NormValue(f, s.Payload()) else DefaultValue(f);
      if f.Singular() then Plain(v) else Opt(Emitted(f, s), v)
    case Repeated => Array(NormItems(f, s.Items()))
    case Oneof => if Emitted(f, s) then Union(f.tag, NormValue(f, s.Payload())) else Union(0, Stale)
  }

  /** Slot k of the canonical form; a union is decided by the member that is set. */
  function NormSlotAt(fs: seq<Field>, k: nat, m: seq<Slot>): Slot
    requires k < |fs| == |m|
    decreases fs, 1, 0
  {
    if SlotOf(fs, k) != k then Alias
    else if fs[k].htype != Oneof then NormSlot(fs[k], m[k])
    else
      var i := Member(fs, k, m[k]);
      if i < |fs| then NormSlot(fs[i], m[k]) else Union(0, Stale)
  }

  /** The member of the union in slot k that is set; |fs| if none is. */
  function Member(fs: seq<Field>, k: nat, s: Slot): (i: nat)
    requires k < |fs|
    ensures i <= |fs|
    ensures i < |fs| ==> fs[i].htype == Oneof && SlotOf(fs, i) == k && fs[i].tag == s.Which()
  {
    var i := FindTag(fs, s.Which(), 0);
    if i < |fs| && fs[i].htype == Oneof && SlotOf(fs, i) == k then i else |fs|
  }

  function NormMsg(fs: seq<Field>, m: seq<Slot>): (r: seq<Slot>)
    requires |fs| == |m|
    ensures |r| == |fs|
    decreases fs, 2, 0
  {
    seq(|fs|, k requires 0 <= k < |fs| => NormSlotAt(fs, k, m))
  }

  /** Slot k when the fields before i have been decoded into fresh memory. */
  function PartSlotAt(fs: seq<Field>, i: nat, k: nat, m: seq<Slot>): Slot
    requires i <= |fs| == |m| && k < |fs|
  {
    if SlotOf(fs, k) != k then Alias
    else if fs[k].htype != Oneof then
      if k < i then NormSlot(fs[k], m[k]) else DefaultSlot(fs[k])
    else
      var j := Member(fs, k, m[k]);
      if j < i then NormSlot(fs[j], m[k]) else Union(0, Stale)
  }

  function PartMsg(fs: seq<Field>, i: nat, m: seq<Slot>): (r: seq<Slot>)
    requires i <= |fs| == |m|
    ensures |r| == |fs|
  {
    seq(|fs|, k requires 0 <= k < |fs| => PartSlotAt(fs, i, k, m))
  }

  lemma PartMsgStart(fs: seq<Field>, m: seq<Slot>)
    requires |fs| == |m|
    ensures PartMsg(fs, 0, m) == DefaultMsg(fs, 0)
    ensures PartMsg(fs, |fs|, m) == NormMsg(fs, m)
  {
    forall k | 0 <= k < |fs|
      ensures PartMsg(fs, 0, m)[k] == DefaultMsg(fs, 0)[k]
    {
      DefaultMsgAt(fs, 0, k);
    }
    forall k | 0 <= k < |fs|
      ensures PartMsg(fs, |fs|, m)[k] == NormMsg(fs, m)[k]
    {
    }
  }

  /** Decoding field i changes only its own slot. */
  lemma PartMsgStep(fs: seq<Field>, i: nat, m: seq<Slot>)
    requires WfDesc(fs) && i < |fs| == |m|
    ensures PartMsg(fs, i, m)[SlotOf(fs, i) := PartSlotAt(fs, i + 1, SlotOf(fs, i), m)] == PartMsg(fs, i + 1, m)
  {
    hide WfDesc, NormSlot, DefaultSlot;
    var k0 := SlotOf(fs, i);
    SlotOfIsFirst(fs, i);
    forall k | 0 <= k < |fs| && k != k0
      ensures PartSlotAt(fs, i, k, m) == PartSlotAt(fs, i + 1, k, m)
    {
    }
  }

  lemma {:induction false} ValueIntoFresh(f: Field, cur: Value, v: Value)
    requires WfField(f) && TypedValue(f, v) && EncValue(f, v).Some?
    requires SubBase(f, cur) == DefaultMsg(f.sub, 0)
    ensures MergeValue(f, cur, v) == if ReadableValue(f, v) then Some(NormValue(f, v)) else None
    decreases f, 0, 0
  {
    if f.ltype == Submessage {
      FieldsIntoFresh(f.sub, 0, v.slots);
      PartMsgStart(f.sub, v.slots);
    }
  }

  lemma {:induction false} ItemsIntoFresh(f: Field, items: seq<Value>)
    requires WfField(f) && TypedItems(f, items)
    requires forall k :: 0 <= k < |items| ==> EncValue(f, items[k]).Some?
    ensures MergeItems(f, items) == if ReadableItems(f, items) then Some(NormItems(f, items)) else None
    decreases f, 1, |items|
  {
    hide MergeValue, ReadableValue, NormValue, EncValue;
    if items != [] {
      ValueIntoFresh(f, Stale, items[0]);
      ItemsIntoFresh(f, items[1..]);
    }
  }

  lemma DefaultBase(f: Field)
    requires WfField(f) && f.htype != Repeated
    ensures SubBase(f, DefaultSlot(f).Payload()) == DefaultMsg(f.sub, 0)
  {
    if f.ltype == Submessage && f.htype != Oneof {
      assert DefaultValue(f) == Msg(DefaultMsg(f.sub, 0));
    } else if f.htype != Oneof {
      assert !DefaultValue(f).Msg?;
    }
  }

  /** Every element of an encoded array was encoded, and the array has room for them. */
  lemma {:induction false} ArrayEncoded(f: Field, items: seq<Value>)
    requires EncPacked(f, items).Some? || EncUnpacked(f, items).Some?
    ensures forall k :: 0 <= k < |items| ==> EncValue(f, items[k]).Some?
  {
    if items != [] {
      ArrayEncoded(f, items[1..]);
    }
  }

  lemma ArrayFits(f: Field, items: seq<Value>)
    requires EncArray(f, items).Some?
    ensures |items| <= f.arraySize
    ensures items == [] ==> MergeItems(f, items) == Some([]) && NormItems(f, items) == [] && ReadableItems(f, items)
    ensures forall k :: 0 <= k < |items| ==> EncValue(f, items[k]).Some?
  {
    hide EncValue, EncPacked, EncUnpacked;
    if items != [] {
      ArrayEncoded(f, items);
    }
  }

  /** A field decoded into fresh memory. */
  lemma SlotIntoFresh(f: Field, s: Slot)
    requires WfField(f) && TypedSlot(f, s) && EncSlot(f, s).Some?
    requires f.htype == Oneof ==> Emitted(f, s)
    ensures MergeSlot(f, DefaultSlot(f), s) == if ReadableSlot(f, s) then Some(NormSlot(f, s)) else None
    decreases f, 2, 0
  {
    hide MergeValue, ReadableValue, NormValue, EncArray, MergeItems;
    hide NormItems, ReadableItems, IsZeroValue, SubBase, EncValue, TypedValue;
    if f.htype == Repeated {
      ArrayFits(f, s.items);
      ItemsIntoFresh(f, s.items);
      assert [] + NormItems(f, s.items) == NormItems(f, s.items);
    } else if Emitted(f, s) {
      DefaultBase(f);
      ValueIntoFresh(f, DefaultSlot(f).Payload(), s.v);
    }
  }

  /** Field i, decoded after the fields before it. */
  lemma PartSlotStep(fs: seq<Field>, i: nat, m: seq<Slot>)
    requires WfDesc(fs) && i < |fs| == |m|
    requires TypedSlot(fs[i], m[SlotOf(fs, i)]) && EncSlot(fs[i], m[SlotOf(fs, i)]).Some?
    ensures MergeSlot(fs[i], PartMsg(fs, i, m)[SlotOf(fs, i)], m[SlotOf(fs, i)]) ==
            if ReadableSlot(fs[i], m[SlotOf(fs, i)]) then Some(PartSlotAt(fs, i + 1, SlotOf(fs, i), m)) else None
    decreases fs[i], 3, 0
  {
    hide WfDesc, EncSlot, NormSlot, DefaultValue, TypedValue;
    var f, k := fs[i], SlotOf(fs, i);
    WfDescField(fs, i);
    SlotOfIsFirst(fs, i);
    if f.htype != Oneof || Emitted(f, m[k]) {
      if f.htype == Oneof {
        FindOwnTag(fs, i);
        assert Member(fs, k, m[k]) == i;
      }
      SlotIntoFresh(f, m[k]);
    } else {
      assert Member(fs, k, m[k]) != i;
    }
  }

  lemma {:induction false} FieldsIntoFresh(fs: seq<Field>, i: nat, m: seq<Slot>)
    requires WfDesc(fs) && i <= |fs| == |m|
    requires TypedMsg(fs, i, m) && EncFields(fs, i, m).Some?
    ensures MergeFields(fs, i, PartMsg(fs, i, m), m) == if ReadableFields(fs, i, m) then Some(NormMsg(fs, m)) else None
    decreases fs, 0, |fs| - i
  {
    PartMsgStart(fs, m);
    if i < |fs| {
      PartSlotStep(fs, i, m);
      PartMsgStep(fs, i, m);
      FieldsIntoFresh(fs, i + 1, m);
    }
  }

  // ---- decoding one encoding ----

  /** Decoding an encoding over any message merges the two. */
  lemma NoInitMerges(fs: seq<Field>, cur: seq<Slot>, m: seq<Slot>)
    requires WfDesc(fs) && |fs| == |cur| == |m| && TypedMsg(fs, 0, m) && Addressable(Enc(fs, m))
    ensures NoInit(fs, cur, Enc(fs, m).value) == WithNothing(Merge(fs, cur, m))
  {
    hide DecLoop, MergeLoop, MergeFields, EncFields;
    LoopMerges(fs, 0, StartState(cur), m, []);
    assert Enc(fs, m).value + [] == Enc(fs, m).value;
    LoopFinishes(fs, cur, m, Enc(fs, m).value);
  }

  /** The round trip: decoding an encoded message succeeds exactly when every string written
      leaves room for its terminator; it uses up all bytes and gives the canonical form of the
      message. */
  lemma MessageRoundTrip(fs: seq<Field>, m: seq<Slot>)
    requires WfDesc(fs) && |fs| == |m| && TypedMsg(fs, 0, m) && Addressable(Enc(fs, m))
    ensures Decode(fs, Enc(fs, m).value) == if ReadableFields(fs, 0, m) then Some((NormMsg(fs, m), [])) else None
  {
    hide NoInit, MergeFields, NormMsg, ReadableFields;
    NoInitMerges(fs, DefaultMsg(fs, 0), m);
    FieldsIntoFresh(fs, 0, m);
    PartMsgStart(fs, m);
  }

  // ---- when the canonical form is the message itself ----

  /** Equal as far as the encoder and a reader of the struct look: absent fields have no value. */
  predicate SameValue(f: Field, a: Value, b: Value)
    decreases f, 0, 0
  {
    if f.ltype == Submessage then
      a.Msg? && b.Msg? && |a.slots| == |b.slots| == |f.sub| && SameMsg(f.sub, 0, a.slots, b.slots)
    else a == b
  }

  predicate SameItems(f: Field, a: seq<Value>, b: seq<Value>)
    decreases f, 1, |a|
  {
    |a| == |b| && (a == [] || (SameValue(f, a[0], b[0]) && SameItems(f, a[1..], b[1..])))
  }

  predicate SameSlot(f: Field, a: Slot, b: Slot)
    decreases f, 2, 0
  {
    match f.htype
    case Required => SameValue(f, a.Payload(), b.Payload())
    case Optional =>
      if f.Singular() then SameValue(f, a.Payload(), b.Payload())
      else Emitted(f, a) == Emitted(f, b) && (Emitted(f, a) ==> SameValue(f, a.Payload(), b.Payload()))
    case Repeated => SameItems(f, a.Items(), b.Items())
    case Oneof => Emitted(f, a) == Emitted(f, b) && (Emitted(f, a) ==> SameValue(f, a.Payload(), b.Payload()))
  }

  predicate SameMsg(fs: seq<Field>, i: nat, a: seq<Slot>, b: seq<Slot>)
    requires i <= |fs| == |a| == |b|
    decreases fs, 0, |fs| - i
  {
    i == |fs| || (SameSlot(fs[i], a[SlotOf(fs, i)], b[SlotOf(fs, i)]) && SameMsg(fs, i + 1, a, b))
  }

  /** A proto3 field without an explicit default value other than zero, at every level of
      proto3 submessages. */
  predicate ZeroDefault(f: Field)
    decreases f, 0
  {
    if f.ltype == Submessage then ZeroDefaults(f.sub, 0)
    else f.def.None? || IsZeroValue(f, f.def.value)
  }

  predicate ZeroDefaults(fs: seq<Field>, i: nat)
    requires i <= |fs|
    decreases fs, |fs| - i
  {
    i == |fs| || ((fs[i].Singular() ==> ZeroDefault(fs[i])) && ZeroDefaults(fs, i + 1))
  }

  /** Every value that is left out because it is zero has zero for its default. */
  predicate OmitsValue(f: Field, v: Value)
    decreases f, 0, 0
  {
    f.ltype == Submessage ==> v.Msg? && |v.slots| == |f.sub| && OmitsFields(f.sub, 0, v.slots)
  }

  predicate OmitsItems(f: Field, items: seq<Value>)
    decreases f, 1, |items|
  {
    items == [] || (OmitsValue(f, items[0]) && OmitsItems(f, items[1..]))
  }

  predicate OmitsSlot(f: Field, s: Slot)
    decreases f, 2, 0
  {
    if f.htype == Repeated then OmitsItems(f, s.Items())
    else if Emitted(f, s) then OmitsValue(f, s.Payload())
    else f.Singular() ==> ZeroDefault(f)
  }

  predicate OmitsFields(fs: seq<Field>, i: nat, m: seq<Slot>)
    requires i <= |fs| == |m|
    decreases fs, 0, |fs| - i
  {
    i == |fs| || (OmitsSlot(fs[i], m[SlotOf(fs, i)]) && OmitsFields(fs, i + 1, m))
  }

  /** Omission is sound: a value the zero check lets the encoder leave out is the value the
      decoder's defaults put there, exactly when the descriptor gives no other default. */
  lemma {:induction false} OmittedIsDefault(f: Field, v: Value)
    requires WfField(f) && TypedValue(f, v) && IsZeroValue(f, v)
    ensures SameValue(f, DefaultValue(f), v) <==> ZeroDefault(f)
    decreases f, 0, 0
  {
    if f.ltype == Submessage {
      OmittedFields(f.sub, 0, v.slots);
    }
  }

  lemma {:induction false} OmittedFields(fs: seq<Field>, i: nat, m: seq<Slot>)
    requires WfDesc(fs) && i <= |fs| == |m| && TypedMsg(fs, i, m) && AllZero(fs, i, m)
    ensures SameMsg(fs, i, DefaultMsg(fs, 0), m) <==> ZeroDefaults(fs, i)
    decreases fs, 0, |fs| - i
  {
    if i < |fs| {
      var f, k := fs[i], SlotOf(fs, i);
      WfDescField(fs, i);
      SlotOfIsFirst(fs, i);
      DefaultMsgAt(fs, 0, k);
      OmittedFields(fs, i + 1, m);
      OmittedSlot(f, fs[k], m[k]);
    }
  }

  lemma OmittedSlot(f: Field, first: Field, s: Slot)
    requires WfField(f) && TypedSlot(f, s) && IsZeroSlot(f, s)
    requires f == first || (f.htype == Oneof && first.htype == Oneof)
    ensures SameSlot(f, DefaultSlot(first), s) <==> (f.Singular() ==> ZeroDefault(f))
    decreases f, 1, 0
  {
    if f.Singular() {
      OmittedIsDefault(f, s.Payload());
    }
  }

  lemma {:induction false} NormIsSameValue(f: Field, v: Value)
    requires WfField(f) && TypedValue(f, v)
    ensures SameValue(f, NormValue(f, v), v) <==> OmitsValue(f, v)
    decreases f, 0, 0
  {
    if f.ltype == Submessage {
      NormIsSameFields(f.sub, 0, v.slots);
    }
  }

  lemma {:induction false} NormIsSameItems(f: Field, items: seq<Value>)
    requires WfField(f) && TypedItems(f, items)
    ensures SameItems(f, NormItems(f, items), items) <==> OmitsItems(f, items)
    decreases f, 1, |items|
  {
    hide SameValue, OmitsValue, NormValue;
    if items != [] {
      NormIsSameValue(f, items[0]);
      NormIsSameItems(f, items[1..]);
      assert NormItems(f, items)[1..] == NormItems(f, items[1..]);
    }
  }

  lemma NormIsSameSlot(f: Field, s: Slot)
    requires WfField(f) && TypedSlot(f, s)
    ensures SameSlot(f, NormSlot(f, s), s) <==> OmitsSlot(f, s)
    decreases f, 2, 0
  {
    hide SameValue, OmitsValue, NormValue, SameItems, OmitsItems, NormItems, DefaultValue, ZeroDefault;
    if f.htype == Repeated {
      NormIsSameItems(f, s.items);
    } else if Emitted(f, s) {
      NormIsSameValue(f, s.Payload());
      if f.Singular() {
        NormSingular(f, s);
      }
    } else if f.Singular() {
      OmittedIsDefault(f, s.Payload());
    }
  }

  lemma NormSingular(f: Field, s: Slot)
    requires f.Singular() && Emitted(f, s)
    ensures NormSlot(f, s).Payload() == NormValue(f, s.Payload())
  {
  }

  lemma {:induction false} NormIsSameFields(fs: seq<Field>, i: nat, m: seq<Slot>)
    requires WfDesc(fs) && i <= |fs| == |m| && TypedMsg(fs, i, m)
    ensures SameMsg(fs, i, NormMsg(fs, m), m) <==> OmitsFields(fs, i, m)
    decreases fs, 0, |fs| - i
  {
    hide SameSlot, OmitsSlot, TypedSlot, NormSlot;
    if i < |fs| {
      NormIsSameField(fs, i, m);
      NormIsSameFields(fs, i + 1, m);
    }
  }

  lemma NormIsSameField(fs: seq<Field>, i: nat, m: seq<Slot>)
    requires WfDesc(fs) && i < |fs| == |m| && TypedSlot(fs[i], m[SlotOf(fs, i)])
    ensures SameSlot(fs[i], NormMsg(fs, m)[SlotOf(fs, i)], m[SlotOf(fs, i)]) <==> OmitsSlot(fs[i], m[SlotOf(fs, i)])
    decreases fs[i], 3, 0
  {
    hide WfDesc, SameValue, OmitsValue, NormValue;
    var f, k := fs[i], SlotOf(fs, i);
    WfDescField(fs, i);
    SlotOfIsFirst(fs, i);
    NormIsSameSlot(f, m[k]);
    if f.htype == Oneof {
      FindOwnTag(fs, i);
      var j := Member(fs, k, m[k]);
      assert Emitted(f, m[k]) <==> j == i;
      if j != i {
        assert NormMsg(fs, m)[k] == NormSlotAt(fs, k, m);
        assert j < |fs| ==> Emitted(fs[j], m[k]) && NormSlotAt(fs, k, m) == NormSlot(fs[j], m[k]);
        assert !Emitted(f, NormMsg(fs, m)[k]);
      }
    }
  }

  /** The decoded message is the encoded one exactly when no value was left out whose
      descriptor gives it a default other than zero. */
  lemma RoundTripKeepsMessage(fs: seq<Field>, m: seq<Slot>)
    requires WfDesc(fs) && |fs| == |m| && TypedMsg(fs, 0, m) && Addressable(Enc(fs, m))
    ensures var r := Decode(fs, Enc(fs, m).value);
            && (r.Some? <==> ReadableFields(fs, 0, m))
            && (r.Some? ==> r.value.1 == [] && (SameMsg(fs, 0, r.value.0, m) <==> OmitsFields(fs, 0, m)))
  {
    hide Decode, SameMsg, OmitsFields, NormMsg, ReadableFields;
    MessageRoundTrip(fs, m);
    NormIsSameFields(fs, 0, m);
  }

  /** A proto3 integer field with an explicit default of 7, set to zero, comes back as 7. */
  lemma ExplicitDefaultReplacesZero()
    ensures var f := Field(1, Varint, Optional, 0, 0, 4, 0, [], Some(Num(7)));
            && WfDesc([f]) && TypedMsg([f], 0, [Plain(Num(0))])
            && Enc([f], [Plain(Num(0))]) == Some([])
            && Decode([f], []) == Some(([Plain(Num(7))], []))
  {
    var f := Field(1, Varint, Optional, 0, 0, 4, 0, [], Some(Num(7)));
    assert SlotOf([f], 0) == 0;
    assert TypedMsg([f], 1, [Plain(Num(0))]);
    var none: bytes := [];
    assert EncFields([f], 1, [Plain(Num(0))]) == Some(none);
    assert EncSlot(f, Plain(Num(0))) == Some(none);
    assert Enc([f], [Plain(Num(0))]) == Join(Some(none), Some(none));
    assert none + none == none;
    assert DefaultMsg([f], 0) == [Plain(Num(7))] by {
      DefaultMsgAt([f], 0, 0);
    }
    assert RequiredBefore([f], 1) == 0;
  }

  /** A string that fills its buffer is encoded but not decoded. */
  lemma FullStringIsRejected()
    ensures var f := Field(1, String, Required, 0, 0, 2, 0, [], None);
            && WfDesc([f]) && TypedMsg([f], 0, [Plain(Raw([65, 65]))])
            && Enc([f], [Plain(Raw([65, 65]))]).Some?
            && Decode([f], Enc([f], [Plain(Raw([65, 65]))]).value).None?
  {
    var f := Field(1, String, Required, 0, 0, 2, 0, [], None);
    var m := [Plain(Raw([65, 65]))];
    assert SlotOf([f], 0) == 0;
    assert TypedMsg([f], 1, m);
    assert EncFields([f], 1, m) == Some([]);
    assert EncTag(2, 1) == [10] && EncLength(2) == [2];
    assert EncScalar(f, Raw([65, 65])) == Some([2] + [65, 65]);
    assert EncTagged(f, Raw([65, 65])) == Some([10] + ([2] + [65, 65]));
    assert Enc([f], m) == Join(EncSlot(f, m[0]), Some([]));
    MessageRoundTrip([f], m);
  }
}
