/** Which values the encoder leaves out, told by the bytes it writes. */
module Omission {
  import opened Bytes
  import opened Descriptor
  import opened Encoding
  import opened Varint

  /** Every union holds nothing or one of its members, below singular submessages too. */
  ghost predicate ProperValue(f: Field, v: Value)
    decreases f, 0
  {
    f.ltype == Submessage ==> v.Msg? && |v.slots| == |f.sub| && Proper(f.sub, v.slots)
  }

  ghost predicate Proper(fs: seq<Field>, m: seq<Slot>)
    requires |fs| == |m|
    decreases fs
  {
    && (forall i :: 0 <= i < |fs| && fs[i].Singular() ==> ProperValue(fs[i], m[SlotOf(fs, i)].Payload()))
    && (forall i :: 0 <= i < |fs| && fs[i].htype == Oneof ==> HoldsMember(fs, i, m[SlotOf(fs, i)].Which()))
  }

  /** which is 0 or the tag of a member of the union that field i belongs to. */
  ghost predicate HoldsMember(fs: seq<Field>, i: nat, which: nat)
    requires i < |fs|
  {
    which == 0
    || exists j :: 0 <= j < |fs| && fs[j].htype == Oneof && SlotOf(fs, j) == SlotOf(fs, i) && fs[j].tag == which
  }

  lemma TaggedNotEmpty(f: Field, v: Value)
    ensures EncTagged(f, v) != Some([])
  {
    hide EncVarint, EncValue;
  }

  /** A proto3 field is left out exactly when its value is zero: the number 0, the empty string or
      byte array, or a submessage for which nothing is written either. */
  lemma {:induction false} OmittedIffZero(f: Field, v: Value)
    requires WfField(f) && f.htype == Optional && f.sizeOffset == 0 && TypedValue(f, v) && ProperValue(f, v)
    ensures EncSlot(f, Plain(v)) == Some([]) <==>
              match f.ltype
              case Bytes => v == Raw([])
              case String => v == Raw([])
              case FixedLengthBytes => false
              case Submessage => Enc(f.sub, v.slots) == Some([])
              case _ => v == Num(0)
    decreases f, 0
  {
    hide EncTagged, EncFields, AllZero;
    TaggedNotEmpty(f, v);
    if f.ltype == Submessage {
      ZeroIffEmpty(f.sub, v.slots);
    }
  }

  /** A field with a has_ flag begins without it, and is written exactly when it has it, zero or not. */
  lemma WrittenIffSet(f: Field, has: bool, v: Value)
    requires WfField(f) && f.htype == Optional && f.sizeOffset != 0
    ensures DefaultSlot(f) == Opt(false, DefaultValue(f))
    ensures EncSlot(f, Opt(has, v)) == Some([]) <==> !has
    ensures IsZeroSlot(f, Opt(has, v)) <==> !has
  {
    hide EncTagged;
    TaggedNotEmpty(f, v);
  }

  /** The zero check of a field that is not in a union agrees with what is written for it. */
  lemma SlotZero(f: Field, s: Slot)
    requires WfField(f) && TypedSlot(f, s) && (f.Singular() ==> ProperValue(f, s.Payload()))
    ensures f.htype != Oneof ==> (IsZeroSlot(f, s) <==> EncSlot(f, s) == Some([]))
    ensures f.htype == Oneof ==> (s.Which() == f.tag <==> EncSlot(f, s) != Some([]))
    decreases f, 1
  {
    hide EncTagged, EncFields, IsZeroValue, TypedValue, ProperValue;
    TaggedNotEmpty(f, s.Payload());
    if f.htype == Repeated {
      ArrayNotEmpty(f, s.items);
    }
  }

  lemma ArrayNotEmpty(f: Field, items: seq<Value>)
    ensures EncArray(f, items) == Some([]) <==> items == []
  {
    hide EncTagged, EncPacked, EncVarint;
    if items != [] {
      TaggedNotEmpty(f, items[0]);
    }
  }

  lemma {:induction false} FieldsEmpty(fs: seq<Field>, i: nat, m: seq<Slot>)
    requires i <= |fs| == |m|
    ensures EncFields(fs, i, m) == Some([]) <==> forall j :: i <= j < |fs| ==> EncSlot(fs[j], m[SlotOf(fs, j)]) == Some([])
    decreases |fs| - i
  {
    hide EncSlot, SlotOf;
    if i < |fs| {
      FieldsEmpty(fs, i + 1, m);
      JoinEmpty(EncSlot(fs[i], m[SlotOf(fs, i)]), EncFields(fs, i + 1, m));
    }
  }

  lemma JoinEmpty(a: Option<bytes>, b: Option<bytes>)
    ensures Join(a, b) == Some([]) <==> a == Some([]) && b == Some([])
  {
    if a.Some? && b.Some? {
      assert |a.value + b.value| == |a.value| + |b.value|;
      assert a.value + b.value == [] <==> a.value == [] && b.value == [];
    }
  }

  lemma {:induction false} ZeroFields(fs: seq<Field>, i: nat, m: seq<Slot>)
    requires i <= |fs| == |m|
    ensures AllZero(fs, i, m) <==> forall j :: i <= j < |fs| ==> IsZeroSlot(fs[j], m[SlotOf(fs, j)])
    decreases |fs| - i
  {
    hide IsZeroSlot, SlotOf;
    if i < |fs| {
      ZeroFields(fs, i + 1, m);
    }
  }

  /** A message is zero exactly when nothing is written for it. */
  lemma ZeroIffEmpty(fs: seq<Field>, m: seq<Slot>)
    requires WfDesc(fs) && |fs| == |m| && TypedMsg(fs, 0, m) && Proper(fs, m)
    ensures AllZero(fs, 0, m) <==> Enc(fs, m) == Some([])
    decreases fs
  {
    hide WfDesc, EncSlot, IsZeroSlot, TypedSlot, ProperValue, SlotOf, EncFields, AllZero, TypedMsg;
    FieldsEmpty(fs, 0, m);
    ZeroFields(fs, 0, m);
    forall i | 0 <= i < |fs|
      ensures fs[i].htype != Oneof ==>
                (IsZeroSlot(fs[i], m[SlotOf(fs, i)]) <==> EncSlot(fs[i], m[SlotOf(fs, i)]) == Some([]))
      ensures fs[i].htype == Oneof ==>
                (m[SlotOf(fs, i)].Which() == fs[i].tag <==> EncSlot(fs[i], m[SlotOf(fs, i)]) != Some([]))
      ensures fs[i].htype == Oneof ==> (IsZeroSlot(fs[i], m[SlotOf(fs, i)]) <==> m[SlotOf(fs, i)].Which() == 0)
      ensures fs[i].tag != 0
    {
      WfDescField(fs, i);
      TypedAt(fs, 0, m, i);
      assert fs[i].Singular() ==> ProperValue(fs[i], m[SlotOf(fs, i)].Payload());
      SlotZero(fs[i], m[SlotOf(fs, i)]);
      if fs[i].htype == Oneof {
        UnionZero(fs[i], m[SlotOf(fs, i)]);
      }
    }
  }

  lemma UnionZero(f: Field, s: Slot)
    requires f.htype == Oneof
    ensures IsZeroSlot(f, s) <==> s.Which() == 0
  {
  }

  /** Without an explicit default a field begins as the number 0, the empty string or byte array, or
      as many zero bytes as it has; a submessage begins with the defaults of its own fields. */
  lemma DefaultsAreZero(f: Field)
    requires f.def.None?
    ensures match f.ltype
            case Bytes => DefaultValue(f) == Raw([])
            case String => DefaultValue(f) == Raw([])
            case FixedLengthBytes =>
              DefaultValue(f).Raw? && |DefaultValue(f).bs| == f.dataSize && forall b :: b in DefaultValue(f).bs ==> b == 0
            case Submessage =>
              DefaultValue(f).Msg? && |DefaultValue(f).slots| == |f.sub|
              && forall k :: 0 <= k < |f.sub| && SlotOf(f.sub, k) == k ==> DefaultValue(f).slots[k] == DefaultSlot(f.sub[k])
            case _ => DefaultValue(f) == Num(0)
  {
    if f.ltype == Submessage {
      forall k | 0 <= k < |f.sub|
        ensures DefaultMsg(f.sub, 0)[k] == if SlotOf(f.sub, k) == k then DefaultSlot(f.sub[k]) else Alias
      {
        DefaultMsgAt(f.sub, 0, k);
      }
    }
  }
}
