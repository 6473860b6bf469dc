/** Field descriptors, the memory of a message struct, and the walk over its fields. */
module Descriptor {
  import opened Bytes
  import opened Integers

  /** Data types of a field, in the numbering order of the PB_LTYPE constants. */
  datatype LType = Bool | Varint | UVarint | SVarint | Fixed32 | Fixed64
                 | Bytes | String | Submessage | FixedLengthBytes {
    /** At most PB_LTYPE_LAST_PACKABLE. */
    predicate Packable() { Bool? || Varint? || UVarint? || SVarint? || Fixed32? || Fixed64? }
  }

  datatype HType = Required | Optional | Repeated | Oneof

  /** pb_field_t of a statically allocated field. sub describes a submessage; def is the
      explicit default value, None when the descriptor has none. */
  datatype Field = Field(tag: nat, ltype: LType, htype: HType, dataOffset: nat, sizeOffset: int,
                         dataSize: nat, arraySize: nat, sub: seq<Field>, def: Option<Value>) {
    /** A repeated field without a counter: all its elements are always present. */
    predicate FixedCount() { htype == Repeated && sizeOffset == 0 }

    /** A proto3 field: present when its value is not the zero value. */
    predicate Singular() { htype == Optional && sizeOffset == 0 }
  }

  /** One data item in memory. Stale stands for memory whose contents are not specified. */
  datatype Value = Num(n: int) | Raw(bs: bytes) | Msg(slots: seq<Slot>) | Stale

  /** The memory of one field with its has_ flag, count or which_ member. Fields in the same
      union share the memory of the first one; the others are Alias. */
  datatype Slot = Plain(v: Value) | Opt(has: bool, v: Value) | Array(items: seq<Value>)
                | Union(which: nat, v: Value) | Alias {
    function Payload(): Value {
      match this
      case Plain(v) => v
      case Opt(_, v) => v
      case Union(_, v) => v
      case _ => Stale
    }

    function Items(): seq<Value> { if Array? then items else [] }

    function Which(): nat { if Union? then which else 0 }
  }

  /** PB_SIZE_MAX, for 32-bit descriptor fields; as data_offset it marks a further union member. */
  const SIZE_MAX: nat := 0xFFFF_FFFF

  predicate InUnion(fs: seq<Field>, i: nat)
    requires i < |fs|
  {
    i > 0 && fs[i - 1].htype == Oneof && fs[i].htype == Oneof && fs[i].dataOffset == SIZE_MAX
  }

  /** The field whose memory field i uses: itself, or the first member of its union. */
  function SlotOf(fs: seq<Field>, i: nat): (k: nat)
    requires i < |fs|
    ensures k <= i
  {
    if InUnion(fs, i) then SlotOf(fs, i - 1) else i
  }

  lemma {:induction false} SlotOfIsFirst(fs: seq<Field>, i: nat)
    requires i < |fs|
    ensures SlotOf(fs, SlotOf(fs, i)) == SlotOf(fs, i)
    ensures SlotOf(fs, i) != i ==> fs[i].htype == Oneof && fs[SlotOf(fs, i)].htype == Oneof
  {
    if InUnion(fs, i) {
      SlotOfIsFirst(fs, i - 1);
    }
  }

  /** The number of required fields before field i. */
  function RequiredBefore(fs: seq<Field>, i: nat): (n: nat)
    requires i <= |fs|
    ensures n <= i
  {
    if i == 0 then 0 else RequiredBefore(fs, i - 1) + if fs[i - 1].htype == Required then 1 else 0
  }

  lemma {:induction false} RequiredCounts(fs: seq<Field>, i: nat, n: nat)
    requires i < n <= |fs| && fs[i].htype == Required
    ensures RequiredBefore(fs, i) < RequiredBefore(fs, n)
    decreases n - i
  {
    if i + 1 < n {
      RequiredCounts(fs, i, n - 1);
    }
  }

  /** The first field with a tag, from i on; |fs| when there is none. */
  function FindTag(fs: seq<Field>, tag: nat, i: nat): (k: nat)
    requires i <= |fs|
    ensures i <= k <= |fs|
    ensures k < |fs| ==> fs[k].tag == tag
    ensures forall j :: i <= j < k ==> fs[j].tag != tag
    decreases |fs| - i
  {
    if i == |fs| || fs[i].tag == tag then i else FindTag(fs, tag, i + 1)
  }

  const MAX_TAG: nat := 0x1FFF_FFFF

  /** What the generated descriptor tables guarantee about one field. */
  predicate FieldOk(f: Field) {
    && 1 <= f.tag <= MAX_TAG
    && (f.htype == Required ==> f.sizeOffset == 0)
    && (f.htype == Oneof ==> f.sizeOffset != 0)
    && 0 < f.dataSize <= SIZE_MAX && f.arraySize <= SIZE_MAX
    && (f.htype == Repeated ==> f.arraySize > 0)
    && (f.def.Some? ==> f.ltype != Submessage && (f.htype == Required || f.htype == Optional)
                        && FitsScalar(f, f.def.value))
    && (f.ltype == Varint || f.ltype == UVarint || f.ltype == SVarint ==> IsWidth(f.dataSize))
    && (f.ltype == Bytes ==> f.dataSize >= BYTES_HEADER)
  }

  /** A well-formed descriptor table, at every level. */
  ghost predicate WfDesc(fs: seq<Field>)
    decreases fs
  {
    && (forall i :: 0 <= i < |fs| ==> FieldOk(fs[i]))
    && (forall i :: 0 <= i < |fs| ==> fs[i].dataOffset != SIZE_MAX || InUnion(fs, i))
    && (forall i, j :: 0 <= i < j < |fs| ==> fs[i].tag != fs[j].tag)
    && (forall i :: 0 <= i < |fs| && fs[i].ltype == Submessage ==> WfDesc(fs[i].sub))
  }

  /** One field of a well-formed table. */
  ghost predicate WfField(f: Field) {
    FieldOk(f) && (f.ltype == Submessage ==> WfDesc(f.sub))
  }

  lemma WfDescField(fs: seq<Field>, i: nat)
    requires WfDesc(fs) && i < |fs|
    ensures WfField(fs[i])
  {
  }

  // ---- default values ----

  /** The contents pb_field_set_to_default gives the data item of a field. */
  function DefaultValue(f: Field): Value
    decreases f, 0
  {
    if f.ltype == Submessage then Msg(DefaultMsg(f.sub, 0))
    else if f.def.Some? then f.def.value
    else ZeroValue(f)
  }

  /** All bytes zero. */
  function ZeroValue(f: Field): Value {
    match f.ltype
    case Bytes => Raw([])
    case String => Raw([])
    case FixedLengthBytes => Raw(Zeros(f.dataSize))
    case _ => Num(0)
  }

  function Zeros(n: nat): (bs: bytes)
    ensures |bs| == n && forall i :: 0 <= i < n ==> bs[i] == 0
  {
    seq(n, _ => 0)
  }

  function Unspecified(n: nat): (vs: seq<Value>)
    ensures |vs| == n && forall i :: 0 <= i < n ==> vs[i] == Stale
  {
    seq(n, _ => Stale)
  }

  /** What pb_field_set_to_default makes of a field's memory. The elements of a fixed-count
      array are not initialised. */
  function DefaultSlot(f: Field): Slot
    decreases f, 1
  {
    match f.htype
    case Required => Plain(DefaultValue(f))
    case Optional => if f.Singular() then Plain(DefaultValue(f)) else Opt(false, DefaultValue(f))
    case Repeated => if f.FixedCount() then Array(Unspecified(f.arraySize)) else Array([])
    case Oneof => Union(0, Stale)
  }

  /** The slots of fields i and later after pb_message_set_to_defaults. */
  function DefaultMsg(fs: seq<Field>, i: nat): (m: seq<Slot>)
    requires i <= |fs|
    ensures |m| == |fs| - i
    decreases fs, |fs| - i
  {
    if i == |fs| then []
    else [if SlotOf(fs, i) == i then DefaultSlot(fs[i]) else Alias] + DefaultMsg(fs, i + 1)
  }

  lemma {:induction false} DefaultMsgAt(fs: seq<Field>, i: nat, k: nat)
    requires i <= k < |fs|
    ensures DefaultMsg(fs, i)[k - i] == if SlotOf(fs, k) == k then DefaultSlot(fs[k]) else Alias
    decreases k - i
  {
    if i < k {
      DefaultMsgAt(fs, i + 1, k);
    }
  }

  // ---- the proto3 zero-value check ----

  /** The part of pb_check_proto3_default_value that looks at the data item. */
  predicate IsZeroValue(f: Field, v: Value)
    decreases f, 0
  {
    match f.ltype
    case Bytes => v.Raw? && v.bs == []
    case String => v.Raw? && v.bs == []
    case FixedLengthBytes => f.dataSize == 0
    case Submessage => v.Msg? && |v.slots| == |f.sub| && AllZero(f.sub, 0, v.slots)
    case _ => v == Num(0)
  }

  /** pb_check_proto3_default_value. */
  predicate IsZeroSlot(f: Field, s: Slot)
    decreases f, 1
  {
    match f.htype
    case Required => false
    case Repeated => !f.FixedCount() && s.Items() == []
    case Oneof => s.Which() == 0
    case Optional => if f.Singular() then IsZeroValue(f, s.Payload()) else !(s.Opt? && s.has)
  }

  predicate AllZero(fs: seq<Field>, i: nat, m: seq<Slot>)
    requires i <= |fs| == |m|
    decreases fs, |fs| - i
  {
    i == |fs| || (IsZeroSlot(fs[i], m[SlotOf(fs, i)]) && AllZero(fs, i + 1, m))
  }

  // ---- the values a C struct can hold ----

  /** The bytes of a C string up to its terminator. */
  function CString(bs: bytes): (s: bytes)
    ensures s <= bs && 0 !in s
    ensures |s| < |bs| ==> bs[|s|] == 0
    ensures 0 !in bs ==> s == bs
  {
    if bs == [] || bs[0] == 0 then [] else [bs[0]] + CString(bs[1..])
  }

  /** A value the data item of field f can hold in memory. */
  predicate TypedValue(f: Field, v: Value)
    decreases f, 0
  {
    match f.ltype
    case Bool => v == Num(0) || v == Num(1)
    case Varint => v.Num? && IsWidth(f.dataSize) && FitsSigned(v.n, f.dataSize)
    case UVarint => v.Num? && IsWidth(f.dataSize) && FitsUnsigned(v.n, f.dataSize)
    case SVarint => v.Num? && IsWidth(f.dataSize) && FitsSigned(v.n, f.dataSize)
    case Fixed32 => v.Num? && 0 <= v.n < TWO_TO_THE_32
    case Fixed64 => v.Num? && 0 <= v.n < TWO_TO_THE_64
    case Bytes => v.Raw? && |v.bs| < TWO_TO_THE_32
    case String => v.Raw? && |v.bs| <= f.dataSize && 0 !in v.bs
    case Submessage => v.Msg? && |v.slots| == |f.sub| && TypedMsg(f.sub, 0, v.slots)
    case FixedLengthBytes => v.Raw? && |v.bs| == f.dataSize
  }

  /** The size of pb_bytes_array_t before its contents: one 32-bit pb_size_t. */
  const BYTES_HEADER: nat := 4

  /** A value that also leaves room for what its memory holds besides: the terminator of a
      string, the size of a byte array. */
  predicate FitsScalar(f: Field, v: Value) {
    && f.ltype != Submessage
    && TypedValue(f, v)
    && (f.ltype == String ==> |v.bs| < f.dataSize)
    && (f.ltype == Bytes ==> |v.bs| + BYTES_HEADER <= f.dataSize)
  }

  /** Memory of the shape of field f, initialised as far as the encoder reads it. */
  predicate TypedSlot(f: Field, s: Slot)
    decreases f, 1
  {
    match f.htype
    case Required => s.Plain? && TypedValue(f, s.v)
    case Optional => if f.Singular() then s.Plain? && TypedValue(f, s.v) else s.Opt? && (s.has ==> TypedValue(f, s.v))
    case Repeated => s.Array? && (f.FixedCount() ==> |s.items| == f.arraySize)
                     && forall k :: 0 <= k < |s.items| ==> TypedValue(f, s.items[k])
    case Oneof => s.Union? && (s.which == f.tag ==> TypedValue(f, s.v))
  }

  predicate TypedMsg(fs: seq<Field>, i: nat, m: seq<Slot>)
    requires i <= |fs| == |m|
    decreases fs, |fs| - i
  {
    i == |fs| || (TypedSlot(fs[i], m[SlotOf(fs, i)])
                  && (SlotOf(fs, i) != i ==> m[i] == Alias)
                  && TypedMsg(fs, i + 1, m))
  }

  predicate TypedItems(f: Field, items: seq<Value>) {
    forall k :: 0 <= k < |items| ==> TypedValue(f, items[k])
  }

  /** Memory of the shape of a descriptor: union members other than the first are aliases. */
  predicate Shaped(fs: seq<Field>, m: seq<Slot>) {
    |m| == |fs| && forall i :: 0 <= i < |fs| && SlotOf(fs, i) != i ==> m[i] == Alias
  }

  lemma {:induction false} TypedAt(fs: seq<Field>, i: nat, m: seq<Slot>, k: nat)
    requires i <= k < |fs| == |m| && TypedMsg(fs, i, m)
    ensures TypedSlot(fs[k], m[SlotOf(fs, k)])
    ensures SlotOf(fs, k) != k ==> m[k] == Alias
    decreases k - i
  {
    if i < k {
      TypedAt(fs, i + 1, m, k);
    }
  }

  lemma TypedIsShaped(fs: seq<Field>, m: seq<Slot>)
    requires |fs| == |m| && TypedMsg(fs, 0, m)
    ensures Shaped(fs, m)
  {
    forall k | 0 <= k < |fs| && SlotOf(fs, k) != k
      ensures m[k] == Alias
    {
      TypedAt(fs, 0, m, k);
    }
  }

  lemma DefaultIsShaped(fs: seq<Field>)
    ensures Shaped(fs, DefaultMsg(fs, 0))
  {
    forall k | 0 <= k < |fs| && SlotOf(fs, k) != k
      ensures DefaultMsg(fs, 0)[k] == Alias
    {
      DefaultMsgAt(fs, 0, k);
    }
  }

  lemma StillShaped(fs: seq<Field>, m: seq<Slot>, i: nat, s: Slot)
    requires Shaped(fs, m) && i < |fs|
    ensures |m| == |fs| && Shaped(fs, m[SlotOf(fs, i) := s])
  {
    hide SlotOf;
    SlotOfIsFirst(fs, i);
  }
}
