/** What pb_decode makes of a byte string. None is a decoding error; otherwise the result
    carries the bytes that were not consumed. */
module Decoding {
  import opened Bytes
  import opened Integers
  import opened Varint
  import opened Descriptor
  import opened Encoding

  datatype TagResult = BadTag | EndTag(rest: bytes) | GoodTag(tag: nat, wireType: nat, rest: bytes)

  /** pb_decode_tag; a zero ends the message. */
  function DecTag(s: bytes): (r: TagResult)
    ensures r.GoodTag? ==> |r.rest| < |s|
    ensures r.EndTag? ==> |r.rest| < |s|
  {
    match Dec32(s)
    case None => BadTag
    case Some((n, rest)) => if n == 0 then EndTag(rest) else GoodTag(n / 8, n % 8, rest)
  }

  /** pb_skip_varint: any number of bytes with the top bit set, and one without. */
  function SkipVarint(s: bytes): (r: Option<bytes>)
    ensures r.Some? ==> |r.value| < |s|
  {
    if s == [] then None else if s[0] < 128 then Some(s[1..]) else SkipVarint(s[1..])
  }

  /** pb_read of n bytes. */
  function Take(s: bytes, n: nat): (r: Option<(bytes, bytes)>)
    ensures r.Some? ==> |r.value.0| == n && |r.value.1| == |s| - n
  {
    if |s| < n then None else Some((s[..n], s[n..]))
  }

  function Drop(s: bytes, n: nat): (r: Option<bytes>)
    ensures r.Some? ==> |r.value| == |s| - n
  {
    if |s| < n then None else Some(s[n..])
  }

  /** pb_make_string_substream: a length and that many bytes. */
  function DecChunk(s: bytes): (r: Option<(bytes, bytes)>)
    ensures r.Some? ==> |r.value.0| + |r.value.1| < |s|
  {
    match Dec32(s)
    case None => None
    case Some((n, rest)) => Take(rest, n)
  }

  /** pb_skip_field. */
  function SkipField(wireType: nat, s: bytes): (r: Option<bytes>)
    ensures r.Some? ==> |r.value| < |s|
  {
    if wireType == WT_VARINT then SkipVarint(s)
    else if wireType == WT_64BIT then Drop(s, 8)
    else if wireType == WT_STRING then
      match DecChunk(s)
      case None => None
      case Some((_, rest)) => Some(rest)
    else if wireType == WT_32BIT then Drop(s, 4)
    else None
  }

  /** The size of a string of n bytes and its terminator, as a 32-bit number. */
  function WithTerminator(n: nat): nat {
    (n + 1) % TWO_TO_THE_32
  }

  /** The decoders of everything but submessages. */
  function DecScalar(f: Field, s: bytes): (r: Option<(Value, bytes)>)
    ensures r.Some? ==> |r.value.1| < |s|
  {
    match f.ltype
    case Bool =>
      (match Dec32(s)
       case None => None
       case Some((n, rest)) => Some((Num(if n != 0 then 1 else 0), rest)))
    case Varint =>
      (match DecVarint(s)
       case None => None
       case Some((u, rest)) => Guard(IntField(u, f.dataSize), rest))
    case UVarint =>
      (match DecVarint(s)
       case None => None
       case Some((u, rest)) => Guard(if IsWidth(f.dataSize) && FitsUnsigned(u, f.dataSize) then Some(u) else None, rest))
    case SVarint =>
      (match DecVarint(s)
       case None => None
       case Some((u, rest)) =>
         var v := UnZigZag(u);
         Guard(if IsWidth(f.dataSize) && FitsSigned(v, f.dataSize) then Some(v) else None, rest))
    case Fixed32 =>
      (match Take(s, 4)
       case None => None
       case Some((bs, rest)) => Some((Num(LeValue(bs)), rest)))
    case Fixed64 =>
      (match Take(s, 8)
       case None => None
       case Some((bs, rest)) => Some((Num(LeValue(bs)), rest)))
    case Bytes =>
      (match Dec32(s)
       case None => None
       case Some((n, rest)) => if n + BYTES_HEADER > f.dataSize then None else RawOf(Take(rest, n)))
    case String =>
      (match Dec32(s)
       case None => None
       case Some((n, rest)) =>
         var size := WithTerminator(n);
         if size < n || size > f.dataSize then None
         else
           match Take(rest, n)
           case None => None
           case Some((bs, rest')) => Some((Raw(CString(bs)), rest')))
    case FixedLengthBytes =>
      (match Dec32(s)
       case None => None
       case Some((n, rest)) =>
         if n == 0 then Some((Raw(Zeros(f.dataSize)), rest))
         else if n != f.dataSize then None
         else RawOf(Take(rest, n)))
    case Submessage => None
  }

  function Guard(v: Option<int>, rest: bytes): Option<(Value, bytes)> {
    if v.Some? then Some((Num(v.value), rest)) else None
  }

  function RawOf(r: Option<(bytes, bytes)>): Option<(Value, bytes)> {
    if r.Some? then Some((Raw(r.value.0), r.value.1)) else None
  }

  /** pb_dec_varint: fields narrower than 64 bits are cast to int32 first. */
  function IntField(u: nat, size: nat): Option<int>
    requires u < TWO_TO_THE_64
  {
    if !IsWidth(size) then None
    else
      var v := if size == 8 then ToSigned(u, 8) else ToSigned(u, 4);
      if FitsSigned(v, size) then Some(v) else None
  }

  /** The elements of a packed array with room for so many; all bytes must be used up. */
  function DecPacked(f: Field, room: nat, s: bytes): (r: Option<seq<Value>>)
    ensures r.Some? ==> |r.value| <= room
    decreases |s|
  {
    if s == [] then Some([])
    else if room == 0 then None
    else
      match DecScalar(f, s)
      case None => None
      case Some((v, rest)) =>
        match DecPacked(f, room - 1, rest)
        case None => None
        case Some(vs) => Some([v] + vs)
  }

  /** The fields a submessage decodes into: those in memory, when it holds such a submessage. */
  function SubBase(f: Field, cur: Value): (m: seq<Slot>)
    ensures |m| == |f.sub|
  {
    if f.htype != Repeated && cur.Msg? && Shaped(f.sub, cur.slots) then cur.slots else DefaultMsg(f.sub, 0)
  }

  /** The elements of a fixed-count array in memory. */
  function FixedItems(f: Field, s: Slot): (vs: seq<Value>)
    ensures |vs| == f.arraySize
  {
    if |s.Items()| == f.arraySize then s.Items() else Unspecified(f.arraySize)
  }

  /** vs with the elements from index at on replaced by new. */
  function Overwrite(vs: seq<Value>, at: nat, new_: seq<Value>): (r: seq<Value>)
    requires at + |new_| <= |vs|
    ensures |r| == |vs|
  {
    vs[..at] + new_ + vs[at + |new_|..]
  }

  /** What the field loop keeps: the message, the indices below 64 of the required fields seen,
      and the last fixed-count field with the number of its elements received. */
  datatype LoopState = LoopState(slots: seq<Slot>, seen: set<nat>, fixedField: Option<nat>, fixedCount: nat)

  const MAX_REQUIRED_FIELDS: nat := 64

  /** Decodes one data item over the value cur. */
  function DecValue(f: Field, cur: Value, s: bytes): (r: Option<(Value, bytes)>)
    ensures r.Some? ==> |r.value.1| < |s|
    decreases |s|, 0
  {
    if f.ltype != Submessage then DecScalar(f, s)
    else
      match DecChunk(s)
      case None => None
      case Some((sub, rest)) =>
        match NoInit(f.sub, SubBase(f, cur), sub)
        case None => None
        case Some((m, _)) => Some((Msg(m), rest))
  }

  /** decode_static_field; count is the number of elements received by a fixed-count field. */
  function DecStatic(f: Field, wireType: nat, slot: Slot, count: nat, s: bytes): (r: Option<(Slot, nat, bytes)>)
    ensures r.Some? ==> |r.value.2| < |s|
    decreases |s|, 1
  {
    match f.htype
    case Required =>
      (match DecValue(f, slot.Payload(), s)
       case None => None
       case Some((v, rest)) => Some((Plain(v), count, rest)))
    case Optional =>
      (match DecValue(f, slot.Payload(), s)
       case None => None
       case Some((v, rest)) => Some((if f.Singular() then Plain(v) else Opt(true, v), count, rest)))
    case Repeated =>
      (var have := if f.FixedCount() then count else |slot.Items()|;
       if wireType == WT_STRING && f.ltype.Packable() then
         match DecChunk(s)
         case None => None
         case Some((sub, rest)) =>
           match DecPacked(f, if have < f.arraySize then f.arraySize - have else 0, sub)
           case None => None
           case Some(vs) => Some(Append(f, slot, count, vs, rest))
       else if have >= f.arraySize then None
       else
         match DecValue(f, Stale, s)
         case None => None
         case Some((v, rest)) => Some(Append(f, slot, count, [v], rest)))
    case Oneof =>
      (var cur := if f.ltype == Submessage && slot.Which() != f.tag then Stale else slot.Payload();
       match DecValue(f, cur, s)
       case None => None
       case Some((v, rest)) => Some((Union(f.tag, v), count, rest)))
  }

  /** Stores the received elements after those already there. */
  function Append(f: Field, slot: Slot, count: nat, vs: seq<Value>, rest: bytes): (Slot, nat, bytes)
  {
    if !f.FixedCount() then (Array(slot.Items() + vs), count, rest)
    else if count + |vs| <= f.arraySize then (Array(Overwrite(FixedItems(f, slot), count, vs)), count + |vs|, rest)
    else (slot, count, rest)
  }

  /** All elements of the fixed-count field being received have arrived. */
  predicate FixedComplete(fs: seq<Field>, st: LoopState) {
    st.fixedField.Some? && st.fixedField.value < |fs| ==> st.fixedCount == fs[st.fixedField.value].arraySize
  }

  /** The bookkeeping of pb_decode_noinit before it decodes a record of field i. */
  function EnterField(fs: seq<Field>, i: nat, st: LoopState): Option<LoopState>
    requires i < |fs|
  {
    if fs[i].FixedCount() && st.fixedField != Some(i) then
      if FixedComplete(fs, st) then Some(st.(fixedField := Some(i), fixedCount := 0)) else None
    else if fs[i].htype == Required && RequiredBefore(fs, i) < MAX_REQUIRED_FIELDS then
      Some(st.(seen := st.seen + {RequiredBefore(fs, i)}))
    else Some(st)
  }

  /** A record of known field i, after its tag. */
  function DecField(fs: seq<Field>, i: nat, st: LoopState, wireType: nat, s: bytes): (r: Option<(LoopState, bytes)>)
    requires i < |fs| == |st.slots|
    ensures r.Some? ==> |r.value.0.slots| == |fs| && |r.value.1| < |s|
    decreases |s|, 2
  {
    match EnterField(fs, i, st)
    case None => None
    case Some(st1) =>
      var k := SlotOf(fs, i);
      match DecStatic(fs[i], wireType, st.slots[k], st1.fixedCount, s)
      case None => None
      case Some((slot, count, rest)) => Some((st1.(slots := st.slots[k := slot], fixedCount := count), rest))
  }

  /** The body of the field loop after the tag. A message type without fields finds its
      terminator for tag 0 and reads a bool. */
  function DecRecord(fs: seq<Field>, st: LoopState, tag: nat, wireType: nat, s: bytes): (r: Option<(LoopState, bytes)>)
    requires |fs| == |st.slots|
    ensures r.Some? ==> |r.value.0.slots| == |fs| && |r.value.1| < |s|
    decreases |s|, 3
  {
    var i := FindTag(fs, tag, 0);
    if i < |fs| then DecField(fs, i, st, wireType, s)
    else if fs == [] && tag == 0 then
      match Dec32(s)
      case None => None
      case Some((_, rest)) => Some((st.(seen := st.seen + {0}), rest))
    else
      match SkipField(wireType, s)
      case None => None
      case Some(rest) => Some((st, rest))
  }

  /** The field loop of pb_decode_noinit. */
  function DecLoop(fs: seq<Field>, st: LoopState, s: bytes): (r: Option<(LoopState, bytes)>)
    requires |fs| == |st.slots|
    ensures r.Some? ==> |r.value.0.slots| == |fs| && |r.value.1| <= |s|
    decreases |s|, 4
  {
    if s == [] then Some((st, []))
    else
      match DecTag(s)
      case BadTag => None
      case EndTag(rest) => Some((st, rest))
      case GoodTag(tag, wireType, rest) =>
        match DecRecord(fs, st, tag, wireType, rest)
        case None => None
        case Some((st', rest')) => DecLoop(fs, st', rest')
  }

  /** The first 64 required fields were all seen. */
  predicate RequiredSeen(fs: seq<Field>, seen: set<nat>) {
    forall k :: 0 <= k < RequiredBefore(fs, |fs|) && k < MAX_REQUIRED_FIELDS ==> k in seen
  }

  function StartState(m: seq<Slot>): LoopState { LoopState(m, {}, None, 0) }

  /** The checks pb_decode_noinit makes after the field loop. */
  function Finish(fs: seq<Field>, r: Option<(LoopState, bytes)>): Option<(seq<Slot>, bytes)> {
    if r.Some? && FixedComplete(fs, r.value.0) && RequiredSeen(fs, r.value.0.seen)
    then Some((r.value.0.slots, r.value.1)) else None
  }

  /** pb_decode_noinit: decodes s over the message m. */
  function NoInit(fs: seq<Field>, m: seq<Slot>, s: bytes): (r: Option<(seq<Slot>, bytes)>)
    requires |fs| == |m|
    ensures r.Some? ==> |r.value.0| == |fs| && |r.value.1| <= |s|
    decreases |s|, 5
  {
    Finish(fs, DecLoop(fs, StartState(m), s))
  }

  /** pb_decode. */
  function Decode(fs: seq<Field>, s: bytes): (r: Option<(seq<Slot>, bytes)>)
    ensures r.Some? ==> |r.value.0| == |fs|
  {
    NoInit(fs, DefaultMsg(fs, 0), s)
  }

  /** pb_decode_delimited. */
  function DecodeDelimited(fs: seq<Field>, s: bytes): (r: Option<(seq<Slot>, bytes)>)
    ensures r.Some? ==> |r.value.1| < |s|
  {
    match DecChunk(s)
    case None => None
    case Some((sub, rest)) =>
      match Decode(fs, sub)
      case None => None
      case Some((m, _)) => Some((m, rest))
  }
}
