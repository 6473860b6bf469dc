/** What pb_encode writes: the bytes for a message in memory. None is an encoding error. */
module Encoding {
  import opened Bytes
  import opened Integers
  import opened Varint
  import opened Descriptor

  const WT_VARINT: nat := 0
  const WT_64BIT: nat := 1
  const WT_STRING: nat := 2
  const WT_32BIT: nat := 5

  function WireType(l: LType): (wt: nat)
    ensures wt < 8
  {
    match l
    case Bool => WT_VARINT
    case Varint => WT_VARINT
    case UVarint => WT_VARINT
    case SVarint => WT_VARINT
    case Fixed32 => WT_32BIT
    case Fixed64 => WT_64BIT
    case _ => WT_STRING
  }

  function EncTag(wireType: nat, tag: nat): bytes {
    EncVarint((tag * 8 + wireType) % TWO_TO_THE_64)
  }

  /** A length, as a 64-bit size_t. */
  function EncLength(n: nat): bytes {
    EncVarint(n % TWO_TO_THE_64)
  }

  function Join(a: Option<bytes>, b: Option<bytes>): Option<bytes> {
    if a.Some? && b.Some? then Some(a.value + b.value) else None
  }

  function WithLength(e: Option<bytes>): Option<bytes> {
    if e.Some? then Some(EncLength(|e.value|) + e.value) else None
  }

  /** The encoders of everything but submessages. */
  function EncScalar(f: Field, v: Value): Option<bytes> {
    match f.ltype
    case Bool => if v.Num? then Some(EncVarint(if v.n != 0 then 1 else 0)) else None
    case Varint => if v.Num? && IsWidth(f.dataSize) then Some(EncVarint(ToUnsigned(v.n, 8))) else None
    case UVarint => if v.Num? && IsWidth(f.dataSize) then Some(EncVarint(ToUnsigned(v.n, 8))) else None
    case SVarint => if v.Num? && IsWidth(f.dataSize) then Some(EncVarint(ZigZag(ToSigned(v.n, 8)))) else None
    case Fixed32 => if v.Num? then Some(LeBytes(ToUnsigned(v.n, 4), 4)) else None
    case Fixed64 => if v.Num? then Some(LeBytes(ToUnsigned(v.n, 8), 8)) else None
    case Bytes => if v.Raw? && |v.bs| + BYTES_HEADER <= f.dataSize then WithLength(Some(v.bs)) else None
    case String => if v.Raw? then WithLength(Some(v.bs)) else None
    case FixedLengthBytes => if v.Raw? then WithLength(Some(v.bs)) else None
    case Submessage => None
  }

  /** The encoded data item, without its tag. */
  function EncValue(f: Field, v: Value): Option<bytes>
    decreases f, 0, 0
  {
    if f.ltype != Submessage then EncScalar(f, v)
    else if v.Msg? && |v.slots| == |f.sub| then WithLength(EncFields(f.sub, 0, v.slots))
    else None
  }

  function EncTagged(f: Field, v: Value): Option<bytes>
    decreases f, 1, 0
  {
    Join(Some(EncTag(WireType(f.ltype), f.tag)), EncValue(f, v))
  }

  /** The data of a packed array. */
  function EncPacked(f: Field, items: seq<Value>): Option<bytes>
    decreases f, 1, |items|
  {
    if items == [] then Some([]) else Join(EncValue(f, items[0]), EncPacked(f, items[1..]))
  }

  /** An array with one tag for each element. */
  function EncUnpacked(f: Field, items: seq<Value>): Option<bytes>
    decreases f, 2, |items|
  {
    if items == [] then Some([]) else Join(EncTagged(f, items[0]), EncUnpacked(f, items[1..]))
  }

  /** encode_array. */
  function EncArray(f: Field, items: seq<Value>): Option<bytes>
    decreases f, 3, 0
  {
    if items == [] then Some([])
    else if |items| > f.arraySize then None
    else if f.ltype.Packable() then Join(Some(EncTag(WT_STRING, f.tag)), WithLength(EncPacked(f, items)))
    else EncUnpacked(f, items)
  }

  /** encode_basic_field. */
  function EncSlot(f: Field, s: Slot): Option<bytes>
    decreases f, 4, 0
  {
    match f.htype
    case Required => EncTagged(f, s.Payload())
    case Optional =>
      if (if f.Singular() then !IsZeroValue(f, s.Payload()) else s.Opt? && s.has)
      then EncTagged(f, s.Payload()) else Some([])
    case Repeated => EncArray(f, s.Items())
    case Oneof => if s.Which() == f.tag then EncTagged(f, s.Payload()) else Some([])
  }

  /** pb_encode, from field i on. */
  function EncFields(fs: seq<Field>, i: nat, m: seq<Slot>): Option<bytes>
    requires i <= |fs| == |m|
    decreases fs, 0, |fs| - i
  {
    if i == |fs| then Some([]) else Join(EncSlot(fs[i], m[SlotOf(fs, i)]), EncFields(fs, i + 1, m))
  }

  /** pb_encode. */
  function Enc(fs: seq<Field>, m: seq<Slot>): Option<bytes>
    requires |fs| == |m|
  {
    EncFields(fs, 0, m)
  }
}
