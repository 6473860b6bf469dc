/** Decoding an encoding over a message merges the two: the law behind round trips, merging of
    concatenated encodings and framing. */
module Merging {
  import opened Bytes
  import opened Integers
  import opened Varint
  import opened Descriptor
  import opened Encoding
  import opened Decoding

  // ---- scalars ----

  /** An encoding that memory can hold. */
  predicate Addressable(e: Option<bytes>) {
    e.Some? && |e.value| < TWO_TO_THE_63
  }

  /** The decoder's lengths are 32-bit numbers. */
  predicate ShortChunk(e: Option<bytes>) {
    e.Some? ==> |e.value| < TWO_TO_THE_32
  }

  /** A string that fills its buffer has no terminator, and the decoder wants room for one. */
  predicate Terminated(f: Field, v: Value) {
    f.ltype == String && v.Raw? ==> |v.bs| < f.dataSize
  }

  /** A length below 2^32 comes back; the decoder rejects longer ones. */
  lemma LengthRoundTrip(n: nat, t: bytes)
    requires n < TWO_TO_THE_63
    ensures EncLength(n) == EncVarint(n)
    ensures Dec32(EncLength(n) + t) == if n < TWO_TO_THE_32 then Some((n, t)) else None
  {
    SmallMod(n, TWO_TO_THE_64);
    if n < TWO_TO_THE_32 {
      Varint32RoundTrip(n, t);
    } else {
      LongVarint32Rejected(n, t);
    }
  }

  lemma TakeAppended(bs: bytes, t: bytes)
    ensures Take(bs + t, |bs|) == Some((bs, t))
  {
    assert (bs + t)[..|bs|] == bs && (bs + t)[|bs|..] == t;
  }

  /** A length-delimited chunk comes back, whatever follows it, if it is not too long. */
  lemma ChunkRoundTrip(bs: bytes, t: bytes)
    requires |bs| < TWO_TO_THE_63
    ensures Dec32(EncLength(|bs|) + bs + t) == if |bs| < TWO_TO_THE_32 then Some((|bs|, bs + t)) else None
    ensures DecChunk(EncLength(|bs|) + bs + t) == if |bs| < TWO_TO_THE_32 then Some((bs, t)) else None
    ensures Take(bs + t, |bs|) == Some((bs, t))
  {
    LengthRoundTrip(|bs|, bs + t);
    TakeAppended(bs, t);
    assert EncLength(|bs|) + bs + t == EncLength(|bs|) + (bs + t);
  }

  lemma IntegerRoundTrip(f: Field, v: Value, t: bytes)
    requires f.ltype == Varint || f.ltype == UVarint || f.ltype == SVarint
    requires TypedValue(f, v)
    ensures EncScalar(f, v).Some? && DecScalar(f, EncScalar(f, v).value + t) == Some((v, t))
  {
    hide EncVarint, DecVarint, ToUnsigned, ToSigned, ZigZag, UnZigZag;
    CastsKeepFitting(v.n, 8);
    if f.ltype == SVarint {
      ZigZagBijection(v.n, 0);
      VarintRoundTrip(ZigZag(v.n), t);
    } else {
      VarintRoundTrip(ToUnsigned(v.n, 8), t);
      if f.ltype == Varint {
        IntFieldRoundTrip(v.n, f.dataSize);
      }
    }
  }

  lemma LowHalf(q: nat, r: nat)
    requires r < TWO_TO_THE_32
    ensures (q * TWO_TO_THE_32 + r) % TWO_TO_THE_32 == r
  {
  }

  /** The low half of a sign-extended 32-bit number is that number. */
  lemma SignExtended(n: int)
    requires FitsSigned(n, 4)
    ensures ToSigned(ToUnsigned(n, 8), 4) == n
  {
    var u := ToUnsigned(n, 8);
    if n < 0 {
      assert u == n + TWO_TO_THE_64;
      LowHalf(TWO_TO_THE_32 - 1, n + TWO_TO_THE_32);
      assert u == (TWO_TO_THE_32 - 1) * TWO_TO_THE_32 + (n + TWO_TO_THE_32);
    } else {
      assert u == n;
    }
  }

  lemma FitsWider(n: int, size: nat)
    requires IsWidth(size) && FitsSigned(n, size)
    ensures FitsSigned(n, 8) && (size != 8 ==> FitsSigned(n, 4))
  {
  }

  /** A signed field of any width comes back from its sign-extended 64-bit form. */
  lemma IntFieldRoundTrip(n: int, size: nat)
    requires IsWidth(size) && FitsSigned(n, size)
    ensures IntField(ToUnsigned(n, 8), size) == Some(n)
  {
    hide ToSigned, ToUnsigned;
    FitsWider(n, size);
    if size == 8 {
      SignedUnsigned(n);
    } else {
      SignExtended(n);
    }
  }

  lemma SignedUnsigned(n: int)
    requires FitsSigned(n, 8)
    ensures ToSigned(ToUnsigned(n, 8), 8) == n
  {
  }

  lemma FixedRoundTrip(f: Field, v: Value, t: bytes)
    requires f.ltype == Fixed32 || f.ltype == Fixed64
    requires TypedValue(f, v)
    ensures EncScalar(f, v).Some? && DecScalar(f, EncScalar(f, v).value + t) == Some((v, t))
  {
    hide LeBytes, LeValue, Pow256;
    Pow256Values();
    var n := if f.ltype == Fixed32 then 4 else 8;
    LeRoundTrip(v.n, n);
    TakeAppended(LeBytes(v.n, n), t);
  }

  lemma BlobRoundTrip(f: Field, v: Value, t: bytes)
    requires f.ltype == Bytes || f.ltype == String || f.ltype == FixedLengthBytes
    requires FieldOk(f) && TypedValue(f, v) && EncScalar(f, v).Some?
    ensures DecScalar(f, EncScalar(f, v).value + t) == if Terminated(f, v) then Some((v, t)) else None
  {
    hide EncLength, Dec32;
    ChunkRoundTrip(v.bs, t);
    if v.bs == [] {
      assert v.bs + t == t;
    }
    if f.ltype == String && |v.bs| + 1 < TWO_TO_THE_32 {
      SmallMod(|v.bs| + 1, TWO_TO_THE_32);
    }
  }

  lemma ScalarRoundTrip(f: Field, v: Value, t: bytes)
    requires f.ltype != Submessage
    requires FieldOk(f) && TypedValue(f, v) && EncScalar(f, v).Some?
    ensures DecScalar(f, EncScalar(f, v).value + t) == if Terminated(f, v) then Some((v, t)) else None
  {
    match f.ltype
    case Bool => Varint32RoundTrip(v.n, t);
    case Varint => IntegerRoundTrip(f, v, t);
    case UVarint => IntegerRoundTrip(f, v, t);
    case SVarint => IntegerRoundTrip(f, v, t);
    case Fixed32 => FixedRoundTrip(f, v, t);
    case Fixed64 => FixedRoundTrip(f, v, t);
    case _ => BlobRoundTrip(f, v, t);
  }

  // ---- what merging means ----

  /** The value of a field after an encoding of v was decoded over cur: a submessage is merged
      into one already there, anything else replaces it. None is a decoding error. */
  function MergeValue(f: Field, cur: Value, v: Value): Option<Value>
    decreases f, 0, 0
  {
    if f.ltype != Submessage then
      if Terminated(f, v) then Some(v) else None
    else if v.Msg? && |v.slots| == |f.sub| && ShortChunk(EncFields(f.sub, 0, v.slots)) then
      match MergeFields(f.sub, 0, SubBase(f, cur), v.slots)
      case None => None
      case Some(m) => Some(Msg(m))
    else None
  }

  /** Array elements are always decoded into fresh memory. */
  function MergeItems(f: Field, items: seq<Value>): (r: Option<seq<Value>>)
    ensures r.Some? ==> |r.value| == |items|
    decreases f, 1, |items|
  {
    if items == [] then Some([])
    else
      match (MergeValue(f, Stale, items[0]), MergeItems(f, items[1..]))
      case (Some(v), Some(vs)) => Some([v] + vs)
      case _ => None
  }

  /** Field by field: a present value is merged in, an absent one changes nothing; array
      elements are appended; a union switches to the member that was encoded. */
  function MergeSlot(f: Field, cur: Slot, new_: Slot): Option<Slot>
    decreases f, 2, 0
  {
    match f.htype
    case Required =>
      (match MergeValue(f, cur.Payload(), new_.Payload())
       case None => None
       case Some(v) => Some(Plain(v)))
    case Optional =>
      if (if f.Singular() then IsZeroValue(f, new_.Payload()) else !(new_.Opt? && new_.has)) then Some(cur)
      else
        (match MergeValue(f, cur.Payload(), new_.Payload())
         case None => None
         case Some(v) => Some(if f.Singular() then Plain(v) else Opt(true, v)))
    case Repeated =>
      if new_.Items() == [] then Some(cur)
      else if f.ltype.Packable() && !ShortChunk(EncPacked(f, new_.Items())) then None
      else
        (match MergeItems(f, new_.Items())
         case None => None
         case Some(vs) =>
           if f.FixedCount() then Some(Array(vs))
           else if |cur.Items()| + |vs| <= f.arraySize then Some(Array(cur.Items() + vs))
           else None)
    case Oneof =>
      if new_.Which() != f.tag then Some(cur)
      else
        match MergeValue(f, if cur.Which() == f.tag then cur.Payload() else Stale, new_.Payload())
        case None => None
        case Some(v) => Some(Union(f.tag, v))
  }

  function MergeFields(fs: seq<Field>, i: nat, cur: seq<Slot>, new_: seq<Slot>): (r: Option<seq<Slot>>)
    requires i <= |fs| == |cur| == |new_|
    ensures r.Some? ==> |r.value| == |fs|
    decreases fs, 0, |fs| - i
  {
    if i == |fs| then Some(cur)
    else
      var k := SlotOf(fs, i);
      match MergeSlot(fs[i], cur[k], new_[k])
      case None => None
      case Some(s) => MergeFields(fs, i + 1, cur[k := s], new_)
  }

  /** The message that results from decoding an encoding of new_ over cur. */
  function Merge(fs: seq<Field>, cur: seq<Slot>, new_: seq<Slot>): (r: Option<seq<Slot>>)
    requires |fs| == |cur| == |new_|
    ensures r.Some? ==> |r.value| == |fs|
  {
    MergeFields(fs, 0, cur, new_)
  }

  // ---- one record ----

  lemma TagRoundTrip(wireType: nat, tag: nat, t: bytes)
    requires wireType < 8 && 1 <= tag <= MAX_TAG
    ensures DecTag(EncTag(wireType, tag) + t) == GoodTag(tag, wireType, t)
    ensures EncTag(wireType, tag) != []
  {
    hide Dec32, EncVarint;
    var n := tag * 8 + wireType;
    SmallMod(n, TWO_TO_THE_64);
    Varint32RoundTrip(n, t);
  }

  lemma FindOwnTag(fs: seq<Field>, i: nat)
    requires WfDesc(fs) && i < |fs|
    ensures FindTag(fs, fs[i].tag, 0) == i
  {
    var k := FindTag(fs, fs[i].tag, 0);
    if k < i {
      assert false;
    }
  }

  /** Continues the field loop behind a record, if the record was decoded. */
  function Continue(fs: seq<Field>, r: Option<LoopState>, t: bytes): (c: Option<(LoopState, bytes)>)
    requires r.Some? ==> |fs| == |r.value.slots|
    ensures c.Some? ==> |c.value.0.slots| == |fs|
  {
    if r.Some? then DecLoop(fs, r.value, t) else None
  }

  /** The loop on a record of a known field. */
  lemma RecordStep(fs: seq<Field>, i: nat, st: LoopState, wireType: nat, r: bytes)
    requires WfDesc(fs) && i < |fs| == |st.slots| && wireType < 8
    ensures DecLoop(fs, st, EncTag(wireType, fs[i].tag) + r) ==
            match DecField(fs, i, st, wireType, r)
            case None => None
            case Some((st', rest)) => DecLoop(fs, st', rest)
  {
    hide DecField, DecTag, EncTag, FindTag;
    FindOwnTag(fs, i);
    assert FieldOk(fs[i]);
    TagRoundTrip(wireType, fs[i].tag, r);
  }

  // ---- array elements ----

  /** The elements of field i received so far. */
  function Have(fs: seq<Field>, i: nat, st: LoopState): nat
    requires i < |fs| == |st.slots|
  {
    if !fs[i].FixedCount() then |st.slots[SlotOf(fs, i)].Items()|
    else if st.fixedField == Some(i) then st.fixedCount else 0
  }

  /** The loop state after decoded elements vs arrived for array field i. */
  function Receive(fs: seq<Field>, i: nat, st: LoopState, vs: seq<Value>): (r: Option<LoopState>)
    requires i < |fs| == |st.slots|
    ensures r.Some? ==> |r.value.slots| == |fs|
  {
    var f, k, have := fs[i], SlotOf(fs, i), Have(fs, i, st);
    if f.FixedCount() && st.fixedField != Some(i) && !FixedComplete(fs, st) then None
    else if vs != [] && have + |vs| > f.arraySize then None
    else
      var (slot, count, _) := Append(f, st.slots[k], if f.FixedCount() then have else st.fixedCount, vs, []);
      Some(LoopState(st.slots[k := slot], st.seen, if f.FixedCount() then Some(i) else st.fixedField, count))
  }

  lemma AppendCompose(f: Field, slot: Slot, count: nat, us: seq<Value>, vs: seq<Value>)
    requires f.htype == Repeated
    requires f.FixedCount() ==> count + |us| + |vs| <= f.arraySize
    ensures var (s1, c1, _) := Append(f, slot, count, us, []);
            Append(f, s1, c1, vs, []) == Append(f, slot, count, us + vs, [])
  {
    if f.FixedCount() {
      var items := FixedItems(f, slot);
      assert Overwrite(Overwrite(items, count, us), count + |us|, vs) == Overwrite(items, count, us + vs);
    } else {
      assert slot.Items() + us + vs == slot.Items() + (us + vs);
    }
  }

  /** Elements that arrive one after the other are the same as elements that arrive together. */
  lemma ReceiveCompose(fs: seq<Field>, i: nat, st: LoopState, us: seq<Value>, vs: seq<Value>)
    requires i < |fs| == |st.slots| && fs[i].htype == Repeated
    ensures Receive(fs, i, st, us).None? ==> Receive(fs, i, st, us + vs).None?
    ensures Receive(fs, i, st, us).Some? ==>
              Receive(fs, i, Receive(fs, i, st, us).value, vs) == Receive(fs, i, st, us + vs)
  {
    hide Overwrite;
    var f, k, have := fs[i], SlotOf(fs, i), Have(fs, i, st);
    var count := if f.FixedCount() then have else st.fixedCount;
    assert us + [] == us && [] + vs == vs;
    if Receive(fs, i, st, us).Some? && (!f.FixedCount() || have + |us| + |vs| <= f.arraySize) {
      AppendCompose(f, st.slots[k], count, us, vs);
      var s1 := Append(f, st.slots[k], count, us, []).0;
      var s2 := Append(f, st.slots[k], count, us + vs, []).0;
      assert st.slots[k := s1][k := s2] == st.slots[k := s2];
    } else {
      assert st.slots[k := st.slots[k]] == st.slots;
    }
  }

  function WithRest(v: Option<Value>, t: bytes): Option<(Value, bytes)> {
    if v.Some? then Some((v.value, t)) else None
  }

  /** A record of an array field, once it is known what the array decoder makes of it. */
  lemma ArrayField(fs: seq<Field>, i: nat, st: LoopState, wireType: nat, items: seq<Value>, bad: bool, s: bytes, t: bytes)
    requires i < |fs| == |st.slots| && fs[i].htype == Repeated
    requires EnterField(fs, i, st).Some? ==>
               var slot, count := st.slots[SlotOf(fs, i)], EnterField(fs, i, st).value.fixedCount;
               var have := if fs[i].FixedCount() then count else |slot.Items()|;
               DecStatic(fs[i], wireType, slot, count, s) ==
               if bad || (items != [] && have + |items| > fs[i].arraySize) then None
               else Some(Append(fs[i], slot, count, items, t))
    ensures DecField(fs, i, st, wireType, s) ==
            match (if bad then None else Receive(fs, i, st, items))
            case None => None
            case Some(r) => Some((r, t))
  {
    hide DecStatic, SlotOf, FixedComplete, Overwrite, FixedItems;
  }

  /** The array decoder on one element that decodes to v. */
  lemma StaticElement(f: Field, slot: Slot, count: nat, v: Option<Value>, p: bytes, t: bytes)
    requires f.htype == Repeated && DecValue(f, Stale, p + t) == WithRest(v, t)
    ensures var have := if f.FixedCount() then count else |slot.Items()|;
            DecStatic(f, WireType(f.ltype), slot, count, p + t) ==
            if v.None? || have + 1 > f.arraySize then None else Some(Append(f, slot, count, [v.value], t))
  {
    hide DecValue, DecChunk, DecPacked, Append;
  }

  /** One tagged element of an array field, once its value is known to decode to v. */
  lemma ElementStep(fs: seq<Field>, i: nat, st: LoopState, v: Option<Value>, p: bytes, t: bytes)
    requires WfDesc(fs) && i < |fs| == |st.slots|
    requires fs[i].htype == Repeated
    requires DecValue(fs[i], Stale, p + t) == WithRest(v, t)
    ensures DecLoop(fs, st, EncTag(WireType(fs[i].ltype), fs[i].tag) + (p + t)) ==
            Continue(fs, if v.Some? then Receive(fs, i, st, [v.value]) else None, t)
  {
    hide DecLoop, DecField, DecStatic, DecValue, EnterField, Receive, Append, EncTag, WfDesc, SlotOf;
    var f := fs[i];
    RecordStep(fs, i, st, WireType(f.ltype), p + t);
    var st1 := EnterField(fs, i, st);
    if st1.Some? {
      StaticElement(f, st.slots[SlotOf(fs, i)], st1.value.fixedCount, v, p, t);
    }
    ArrayField(fs, i, st, WireType(f.ltype), [if v.Some? then v.value else Stale], v.None?, p + t, t);
  }

  /** The array decoder on a packed run. */
  lemma StaticRun(f: Field, slot: Slot, count: nat, items: seq<Value>, p: bytes, t: bytes)
    requires f.htype == Repeated && f.ltype.Packable() && |p| < TWO_TO_THE_63
    requires forall room: nat :: DecPacked(f, room, p) == if |items| <= room then Some(items) else None
    ensures var have := if f.FixedCount() then count else |slot.Items()|;
            DecStatic(f, WT_STRING, slot, count, EncLength(|p|) + p + t) ==
            if |p| >= TWO_TO_THE_32 || (items != [] && have + |items| > f.arraySize) then None
            else Some(Append(f, slot, count, items, t))
  {
    hide DecPacked, EncLength, Append, DecChunk;
    ChunkRoundTrip(p, t);
    var have := if f.FixedCount() then count else |slot.Items()|;
    var room := if have < f.arraySize then f.arraySize - have else 0;
    assert DecPacked(f, room, p) == if |items| <= room then Some(items) else None;
  }

  /** A packed run of an array field. */
  lemma RunStep(fs: seq<Field>, i: nat, st: LoopState, items: seq<Value>, p: bytes, t: bytes)
    requires WfDesc(fs) && i < |fs| == |st.slots|
    requires fs[i].htype == Repeated && fs[i].ltype.Packable()
    requires |p| < TWO_TO_THE_63
    requires forall room: nat :: DecPacked(fs[i], room, p) == if |items| <= room then Some(items) else None
    ensures DecLoop(fs, st, EncTag(WT_STRING, fs[i].tag) + (EncLength(|p|) + p + t)) ==
            Continue(fs, if |p| < TWO_TO_THE_32 then Receive(fs, i, st, items) else None, t)
  {
    hide DecLoop, DecField, DecStatic, EnterField, Receive, Append, EncTag, WfDesc, DecPacked, EncLength, SlotOf;
    var r := EncLength(|p|) + p + t;
    RecordStep(fs, i, st, WT_STRING, r);
    var st1 := EnterField(fs, i, st);
    if st1.Some? {
      StaticRun(fs[i], st.slots[SlotOf(fs, i)], st1.value.fixedCount, items, p, t);
    }
    ArrayField(fs, i, st, WT_STRING, items, |p| >= TWO_TO_THE_32, r, t);
  }

  /** A packed run decodes to its elements, given the room. */
  lemma {:induction false} PackedRoundTrip(f: Field, items: seq<Value>, room: nat)
    requires FieldOk(f) && f.ltype.Packable() && TypedItems(f, items) && EncPacked(f, items).Some?
    ensures DecPacked(f, room, EncPacked(f, items).value) == if |items| <= room then Some(items) else None
  {
    hide EncScalar, DecScalar;
    if items != [] {
      var p := EncPacked(f, items[1..]).value;
      ScalarRoundTrip(f, items[0], p);
      ScalarNotEmpty(f, items[0]);
      if room > 0 {
        PackedRoundTrip(f, items[1..], room - 1);
        assert [items[0]] + items[1..] == items;
      }
    }
  }

  lemma ScalarNotEmpty(f: Field, v: Value)
    requires f.ltype != Submessage && EncScalar(f, v).Some?
    ensures EncScalar(f, v).value != []
  {
  }

  lemma {:induction false} PackableItemsMerge(f: Field, items: seq<Value>)
    requires f.ltype.Packable()
    ensures MergeItems(f, items) == Some(items)
  {
    if items != [] {
      PackableItemsMerge(f, items[1..]);
      assert [items[0]] + items[1..] == items;
    }
  }

  /** Any packed run of elements is received as those elements, unless it is too long. */
  lemma PackedMerges(fs: seq<Field>, i: nat, st: LoopState, items: seq<Value>, t: bytes)
    requires WfDesc(fs) && i < |fs| == |st.slots|
    requires fs[i].htype == Repeated && fs[i].ltype.Packable()
    requires TypedItems(fs[i], items) && Addressable(EncPacked(fs[i], items))
    ensures DecLoop(fs, st, EncTag(WT_STRING, fs[i].tag) + WithLength(EncPacked(fs[i], items)).value + t) ==
            Continue(fs, if ShortChunk(EncPacked(fs[i], items)) then Receive(fs, i, st, items) else None, t)
  {
    hide DecLoop, EncPacked, DecPacked, EncTag, EncLength, Receive;
    WfDescField(fs, i);
    var p := EncPacked(fs[i], items).value;
    forall room: nat
      ensures DecPacked(fs[i], room, p) == if |items| <= room then Some(items) else None
    {
      PackedRoundTrip(fs[i], items, room);
    }
    RunStep(fs, i, st, items, p, t);
    assert EncTag(WT_STRING, fs[i].tag) + (EncLength(|p|) + p + t)
        == EncTag(WT_STRING, fs[i].tag) + (EncLength(|p|) + p) + t;
  }

  // ---- the merge law ----

  /** The loop state after the encoding of field i of message m was decoded. */
  function MergeState(fs: seq<Field>, i: nat, st: LoopState, m: seq<Slot>): (r: Option<LoopState>)
    requires i < |fs| == |st.slots| == |m|
    ensures r.Some? ==> |r.value.slots| == |fs|
  {
    var f, k := fs[i], SlotOf(fs, i);
    match MergeSlot(f, st.slots[k], m[k])
    case None => None
    case Some(s) =>
      var slots := st.slots[k := s];
      if f.FixedCount() then Some(LoopState(slots, st.seen, Some(i), f.arraySize))
      else if f.htype == Required && RequiredBefore(fs, i) < MAX_REQUIRED_FIELDS then
        Some(st.(slots := slots, seen := st.seen + {RequiredBefore(fs, i)}))
      else Some(st.(slots := slots))
  }

  function MergeLoop(fs: seq<Field>, i: nat, st: LoopState, m: seq<Slot>): (r: Option<LoopState>)
    requires i <= |fs| == |st.slots| == |m|
    ensures r.Some? ==> |r.value.slots| == |fs|
    decreases |fs| - i
  {
    if i == |fs| then Some(st)
    else
      match MergeState(fs, i, st, m)
      case None => None
      case Some(st') => MergeLoop(fs, i + 1, st', m)
  }

  /** No fixed-count field from i on has begun, and the last one to begin is complete. */
  predicate FixedReady(fs: seq<Field>, i: nat, st: LoopState) {
    FixedComplete(fs, st) && (st.fixedField.Some? ==> st.fixedField.value < i)
  }

  lemma {:induction false} ValueMerges(f: Field, cur: Value, v: Value, t: bytes)
    requires WfField(f) && TypedValue(f, v) && Addressable(EncValue(f, v))
    ensures DecValue(f, cur, EncValue(f, v).value + t) == WithRest(MergeValue(f, cur, v), t)
    decreases f, 0, 0
  {
    if f.ltype != Submessage {
      ScalarRoundTrip(f, v, t);
    } else {
      hide DecLoop, DecValue, EncFields, MergeFields, MergeLoop, EncLength, WfDesc;
      var b := EncFields(f.sub, 0, v.slots).value;
      var base := SubBase(f, cur);
      LoopMerges(f.sub, 0, StartState(base), v.slots, []);
      assert b + [] == b;
      LoopFinishes(f.sub, base, v.slots, b);
      ChunkDecodes(f, cur, b, Merge(f.sub, base, v.slots), t);
    }
  }

  /** When the field loop on b merges the message m, all of pb_decode_noinit does. */
  lemma LoopFinishes(fs: seq<Field>, cur: seq<Slot>, m: seq<Slot>, b: bytes)
    requires |fs| == |cur| == |m|
    requires DecLoop(fs, StartState(cur), b) == Continue(fs, MergeLoop(fs, 0, StartState(cur), m), [])
    ensures NoInit(fs, cur, b) == WithNothing(Merge(fs, cur, m))
  {
    hide DecLoop, MergeLoop, MergeFields;
    MergeLoopEffect(fs, 0, StartState(cur), m);
    LoopAtEnd(fs, MergeLoop(fs, 0, StartState(cur), m));
  }

  function WithNothing(m: Option<seq<Slot>>): Option<(seq<Slot>, bytes)> {
    if m.Some? then Some((m.value, [])) else None
  }

  /** The decoded message, whatever was left over. */
  function SlotsOf(r: Option<(seq<Slot>, bytes)>): Option<seq<Slot>> {
    if r.Some? then Some(r.value.0) else None
  }

  /** A submessage behind its length. */
  lemma ChunkDecodes(f: Field, cur: Value, b: bytes, r: Option<seq<Slot>>, t: bytes)
    requires f.ltype == Submessage && |b| < TWO_TO_THE_63 && SlotsOf(NoInit(f.sub, SubBase(f, cur), b)) == r
    ensures DecValue(f, cur, EncLength(|b|) + b + t) ==
            if |b| < TWO_TO_THE_32 && r.Some? then Some((Msg(r.value), t)) else None
  {
    hide NoInit, EncLength, DecChunk;
    ChunkRoundTrip(b, t);
  }

  lemma LoopAtEnd(fs: seq<Field>, st: Option<LoopState>)
    requires st.Some? ==> |st.value.slots| == |fs|
    ensures Continue(fs, st, []) == if st.Some? then Some((st.value, [])) else None
  {
  }

  lemma {:induction false} UnpackedMerges(fs: seq<Field>, i: nat, st: LoopState, items: seq<Value>, t: bytes)
    requires WfDesc(fs) && i < |fs| == |st.slots|
    requires fs[i].htype == Repeated && items != []
    requires TypedItems(fs[i], items) && Addressable(EncUnpacked(fs[i], items))
    ensures DecLoop(fs, st, EncUnpacked(fs[i], items).value + t) ==
            var vs := MergeItems(fs[i], items);
            Continue(fs, if vs.Some? then Receive(fs, i, st, vs.value) else None, t)
    decreases fs[i], 1, |items|
  {
    hide DecLoop, DecValue, EncTag, EncValue, MergeValue, Receive, WfDesc;
    var f := fs[i];
    WfDescField(fs, i);
    var tag, p := EncTag(WireType(f.ltype), f.tag), EncValue(f, items[0]).value;
    var later := EncUnpacked(f, items[1..]).value + t;
    assert EncUnpacked(f, items).value + t == tag + (p + later);
    ValueMerges(f, Stale, items[0], later);
    var v := MergeValue(f, Stale, items[0]);
    ElementStep(fs, i, st, v, p, later);
    if v.Some? {
      var st1 := Receive(fs, i, st, [v.value]);
      if |items| == 1 {
        assert items[1..] == [] && later == t;
        assert [v.value] + [] == [v.value];
      } else {
        if st1.Some? {
          UnpackedMerges(fs, i, st1.value, items[1..], t);
        }
        var vs := MergeItems(f, items[1..]);
        if vs.Some? {
          ReceiveCompose(fs, i, st, [v.value], vs.value);
        }
      }
    }
  }

  /** Whether the encoder writes anything for a field that is not an array. */
  predicate Emitted(f: Field, s: Slot) {
    match f.htype
    case Required => true
    case Optional => if f.Singular() then !IsZeroValue(f, s.Payload()) else s.Opt? && s.has
    case Repeated => false
    case Oneof => s.Which() == f.tag
  }

  /** The value a present field is decoded over. */
  function CurrentValue(f: Field, slot: Slot): Value {
    if f.htype == Oneof && f.ltype == Submessage && slot.Which() != f.tag then Stale else slot.Payload()
  }

  lemma StaticMerges(f: Field, slot: Slot, new_: Slot, wireType: nat, count: nat, p: bytes, t: bytes)
    requires f.htype != Repeated && Emitted(f, new_)
    requires DecValue(f, CurrentValue(f, slot), p + t) == WithRest(MergeValue(f, CurrentValue(f, slot), new_.Payload()), t)
    ensures DecStatic(f, wireType, slot, count, p + t) ==
            match MergeSlot(f, slot, new_)
            case None => None
            case Some(s) => Some((s, count, t))
  {
    hide DecValue, IsZeroValue;
    assert f.ltype != Submessage ==> MergeValue(f, slot.Payload(), new_.Payload()) == MergeValue(f, Stale, new_.Payload());
  }

  /** The record of a present field that is not an array. */
  lemma SingleMerges(fs: seq<Field>, i: nat, st: LoopState, m: seq<Slot>, t: bytes)
    requires WfDesc(fs) && i < |fs| == |st.slots| == |m|
    requires fs[i].htype != Repeated
    requires Emitted(fs[i], m[SlotOf(fs, i)])
    requires TypedValue(fs[i], m[SlotOf(fs, i)].Payload()) && Addressable(EncTagged(fs[i], m[SlotOf(fs, i)].Payload()))
    ensures DecLoop(fs, st, EncTagged(fs[i], m[SlotOf(fs, i)].Payload()).value + t) ==
            Continue(fs, MergeState(fs, i, st, m), t)
    decreases fs[i], 2, 0
  {
    hide DecLoop, DecValue, DecStatic, EncTag, EncValue, MergeValue, MergeSlot, WfDesc, Emitted, TypedValue;
    var f, k := fs[i], SlotOf(fs, i);
    WfDescField(fs, i);
    var v := m[k].Payload();
    var tag, p := EncTag(WireType(f.ltype), f.tag), EncValue(f, v).value;
    assert EncTagged(f, v).value + t == tag + (p + t);
    RecordStep(fs, i, st, WireType(f.ltype), p + t);
    ValueMerges(f, CurrentValue(f, st.slots[k]), v, t);
    var st1 := EnterField(fs, i, st);
    StaticMerges(f, st.slots[k], m[k], WireType(f.ltype), st1.value.fixedCount, p, t);
  }

  /** Receiving all elements of an encoded array is merging the array. */
  lemma ReceiveIsMerge(fs: seq<Field>, i: nat, st: LoopState, m: seq<Slot>)
    requires WfDesc(fs) && i < |fs| == |st.slots| == |m|
    requires fs[i].htype == Repeated && FixedReady(fs, i, st)
    requires TypedSlot(fs[i], m[SlotOf(fs, i)])
    ensures var items := m[SlotOf(fs, i)].Items();
            var tooLong := fs[i].ltype.Packable() && !ShortChunk(EncPacked(fs[i], items));
            var vs := if tooLong then None else MergeItems(fs[i], items);
            items != [] ==> MergeState(fs, i, st, m) == if vs.Some? then Receive(fs, i, st, vs.value) else None
    ensures m[SlotOf(fs, i)].Items() == [] ==> MergeState(fs, i, st, m) == Some(st)
  {
    hide MergeValue, WfDesc, TypedValue, MergeItems, EncPacked;
    var f, k := fs[i], SlotOf(fs, i);
    WfDescField(fs, i);
    assert st.slots[k := st.slots[k]] == st.slots;
    var vs := MergeItems(f, m[k].Items());
    if vs.Some? && f.FixedCount() {
      assert Overwrite(FixedItems(f, st.slots[k]), 0, vs.value) == vs.value;
    }
  }

  /** The encoding of an array field. */
  lemma ArrayMerges(fs: seq<Field>, i: nat, st: LoopState, m: seq<Slot>, t: bytes)
    requires WfDesc(fs) && i < |fs| == |st.slots| == |m|
    requires fs[i].htype == Repeated && FixedReady(fs, i, st)
    requires TypedSlot(fs[i], m[SlotOf(fs, i)]) && Addressable(EncSlot(fs[i], m[SlotOf(fs, i)]))
    ensures DecLoop(fs, st, EncSlot(fs[i], m[SlotOf(fs, i)]).value + t) == Continue(fs, MergeState(fs, i, st, m), t)
    decreases fs[i], 2, 0
  {
    hide DecLoop, WfDesc, EncPacked, EncUnpacked, EncTag, EncLength, MergeState, Receive, MergeItems, TypedValue;
    var f, items := fs[i], m[SlotOf(fs, i)].Items();
    ReceiveIsMerge(fs, i, st, m);
    if items == [] {
      assert [] + t == t;
    } else if f.ltype.Packable() {
      PackableItemsMerge(f, items);
      PackedMerges(fs, i, st, items, t);
    } else {
      UnpackedMerges(fs, i, st, items, t);
    }
  }

  /** The encoding of one field, whatever follows it. */
  lemma FieldMerges(fs: seq<Field>, i: nat, st: LoopState, m: seq<Slot>, t: bytes)
    requires WfDesc(fs) && i < |fs| == |st.slots| == |m| && FixedReady(fs, i, st)
    requires TypedSlot(fs[i], m[SlotOf(fs, i)]) && Addressable(EncSlot(fs[i], m[SlotOf(fs, i)]))
    ensures DecLoop(fs, st, EncSlot(fs[i], m[SlotOf(fs, i)]).value + t) == Continue(fs, MergeState(fs, i, st, m), t)
    decreases fs[i], 3, 0
  {
    hide DecLoop, WfDesc, EncTagged, EncArray, MergeValue, MergeItems, TypedValue, IsZeroValue;
    var f, k := fs[i], SlotOf(fs, i);
    if f.htype == Repeated {
      ArrayMerges(fs, i, st, m, t);
    } else if Emitted(f, m[k]) {
      SingleMerges(fs, i, st, m, t);
    } else {
      assert [] + t == t;
      assert st.slots[k := st.slots[k]] == st.slots;
    }
  }

  lemma FixedReadyStep(fs: seq<Field>, i: nat, st: LoopState, m: seq<Slot>)
    requires i < |fs| == |st.slots| == |m| && FixedReady(fs, i, st)
    ensures MergeState(fs, i, st, m).Some? ==> FixedReady(fs, i + 1, MergeState(fs, i, st, m).value)
  {
  }

  /** The merge law: the field loop on the encoding of a message, followed by anything,
      continues with what follows, its message merged with the encoded one. */
  lemma {:induction false} LoopMerges(fs: seq<Field>, i: nat, st: LoopState, m: seq<Slot>, t: bytes)
    requires WfDesc(fs) && i <= |fs| == |st.slots| == |m| && FixedReady(fs, i, st)
    requires TypedMsg(fs, i, m) && Addressable(EncFields(fs, i, m))
    ensures DecLoop(fs, st, EncFields(fs, i, m).value + t) == Continue(fs, MergeLoop(fs, i, st, m), t)
    decreases fs, 0, |fs| - i
  {
    if i == |fs| {
      assert [] + t == t;
    } else {
      hide DecLoop, WfDesc, EncSlot, MergeState, TypedSlot;
      var e, later := EncSlot(fs[i], m[SlotOf(fs, i)]).value, EncFields(fs, i + 1, m).value;
      assert EncFields(fs, i, m).value + t == e + (later + t);
      FieldMerges(fs, i, st, m, later + t);
      FixedReadyStep(fs, i, st, m);
      var st1 := MergeState(fs, i, st, m);
      if st1.Some? {
        LoopMerges(fs, i + 1, st1.value, m, t);
      }
    }
  }

  /** What the encoding does to the loop state: it merges the message, passes both final
      checks, and marks every required field. */
  lemma {:induction false} MergeLoopEffect(fs: seq<Field>, i: nat, st: LoopState, m: seq<Slot>)
    requires i <= |fs| == |st.slots| == |m| && FixedReady(fs, i, st)
    ensures var r, s := MergeLoop(fs, i, st, m), MergeFields(fs, i, st.slots, m);
            && (r.Some? <==> s.Some?)
            && (r.Some? ==>
                  && r.value.slots == s.value
                  && FixedComplete(fs, r.value)
                  && st.seen <= r.value.seen
                  && forall k :: RequiredBefore(fs, i) <= k < RequiredBefore(fs, |fs|) && k < MAX_REQUIRED_FIELDS ==>
                       k in r.value.seen)
    decreases |fs| - i
  {
    hide MergeSlot;
    if i < |fs| {
      FixedReadyStep(fs, i, st, m);
      var st1 := MergeState(fs, i, st, m);
      if st1.Some? {
        MergeLoopEffect(fs, i + 1, st1.value, m);
      }
    }
  }
}
