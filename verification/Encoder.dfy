/** pb_encode.c: the output stream and the encoder that walks a message struct. */
module Encoder {
  import opened Bytes
  import opened Integers
  import opened Varint
  import opened Descriptor
  import opened Encoding
  import opened FieldIteration

  /** pb_ostream_t over a buffer; without a buffer it only counts. */
  class OStream {
    const buf: array?<byte>
    const maxSize: nat
    var state: nat  // offset of the next byte in buf
    var bytesWritten: nat

    ghost predicate Valid()
      reads this
    {
      buf != null ==>
        bytesWritten <= maxSize < TWO_TO_THE_64 && state + (maxSize - bytesWritten) <= buf.Length
    }

    /** pb_ostream_from_buffer. */
    constructor FromBuffer(buf: array<byte>, size: nat)
      requires size <= buf.Length && size < TWO_TO_THE_64
      ensures Valid() && this.buf == buf && maxSize == size && state == 0 && bytesWritten == 0
    {
      this.buf, maxSize, state, bytesWritten := buf, size, 0, 0;
    }

    /** PB_OSTREAM_SIZING. */
    constructor Sizing()
      ensures Valid() && buf == null && bytesWritten == 0
    {
      buf, maxSize, state, bytesWritten := null, 0, 0, 0;
    }

    /** The substream of a submessage of known size: it writes where its parent would. */
    constructor Substream(parent: OStream, size: nat)
      requires parent.Valid()
      requires parent.buf != null ==> parent.bytesWritten + size <= parent.maxSize
      ensures Valid() && buf == parent.buf && maxSize == size && state == parent.state && bytesWritten == 0
    {
      buf, maxSize, state, bytesWritten := parent.buf, size, parent.state, 0;
    }

    /** Whether n more bytes can be written. */
    predicate Fits(n: nat)
      reads this
    {
      buf != null ==> bytesWritten + n <= maxSize
    }

    /** The bytes in the buffer up to the write position. */
    ghost function Output(): bytes
      requires Valid()
      reads this, buf
    {
      if buf == null then [] else buf[..state]
    }

    /** pb_write. A counting stream is only told how many bytes there are. */
    method Write(data: bytes, count: nat) returns (ok: bool)
      requires Valid() && (buf != null ==> |data| == count < TWO_TO_THE_64)
      modifies this, buf
      ensures Valid()
      ensures ok == old(Fits(count))
      ensures !ok ==> bytesWritten == old(bytesWritten) && state == old(state) && buf != null && buf[..] == old(buf[..])
      ensures ok ==> bytesWritten == old(bytesWritten) + count
      ensures ok && buf != null ==>
                && state == old(state) + count
                && Output() == old(Output()) + data
                && forall j :: state <= j < buf.Length ==> buf[j] == old(buf[j])
    {
      if count > 0 && buf != null {
        // The sum of two 64-bit sizes may wrap around.
        var sum := (bytesWritten + count) % TWO_TO_THE_64;
        if sum < bytesWritten || sum > maxSize {
          return false;
        }
        BufWrite(data);
      }
      bytesWritten := bytesWritten + count;
      return true;
    }

    /** buf_write. */
    method BufWrite(data: bytes)
      requires Valid() && buf != null && bytesWritten + |data| <= maxSize
      modifies this`state, buf
      ensures state == old(state) + |data|
      ensures buf[..state] == old(buf[..state]) + data
      ensures forall j :: state <= j < buf.Length ==> buf[j] == old(buf[j])
    {
      var dest := state;
      state := dest + |data|;
      for i := 0 to |data|
        invariant state == dest + |data|
        invariant buf[..dest] == old(buf[..state])
        invariant buf[dest..dest + i] == data[..i]
        invariant forall j :: dest + i <= j < buf.Length ==> buf[j] == old(buf[j])
      {
        buf[dest + i] := data[i];
      }
    }
  }

  /** The stream received exactly the bytes e; nothing behind them changed. */
  twostate predicate Emitted(s: OStream, e: bytes)
    requires old(s.Valid()) && s.Valid()
    reads s, s.buf
  {
    && s.bytesWritten == old(s.bytesWritten) + |e|
    && (s.buf != null ==>
          && s.state == old(s.state) + |e|
          && s.Output() == old(s.Output()) + e
          && forall j :: s.state <= j < s.buf.Length ==> s.buf[j] == old(s.buf[j]))
  }

  lemma EncVarintCases(v: nat)
    requires v < TWO_TO_THE_64
    ensures v < 128 ==> EncVarint(v) == [v]
    ensures v >= 128 ==> EncVarint(v) == [v % 128 + 128] + EncVarint(v / 128)
    ensures 1 <= |EncVarint(v)| <= 10
  {
    VarintRoundTrip(v, []);
  }

  /** The loop of pb_encode_varint: fills the buffer, which never needs more than 10 bytes. */
  method FillVarint(buffer: array<byte>, v: nat) returns (i: nat)
    requires buffer.Length == 10 && 0 < v < TWO_TO_THE_64
    modifies buffer
    ensures i <= 10 && buffer[..i] == EncVarint(v)
  {
    hide EncVarint;
    var value: nat := v;
    i := 0;
    EncVarintCases(v);
    while value != 0
      invariant 0 <= i <= 10 && value < TWO_TO_THE_64
      invariant value != 0 ==> EncVarint(v) == buffer[..i] + EncVarint(value)
      invariant value == 0 ==> i > 0 && buffer[i - 1] >= 128 && EncVarint(v) == buffer[..i - 1] + [buffer[i - 1] - 128]
      decreases value
    {
      EncVarintCases(value);
      ghost var before := buffer[..i];
      buffer[i] := value % 128 + 128;
      assert buffer[..i] == before;
      value := value / 128;
      i := i + 1;
      if value != 0 {
        assert buffer[..i] + EncVarint(value) == before + ([buffer[i - 1]] + EncVarint(value));
      }
    }
    buffer[i - 1] := buffer[i - 1] - 128;  // no byte follows
  }

  /** pb_encode_varint. */
  method EncodeVarint(s: OStream, value: nat) returns (ok: bool)
    requires s.Valid() && value < TWO_TO_THE_64
    modifies s, s.buf
    ensures s.Valid()
    ensures ok == old(s.Fits(|EncVarint(value)|))
    ensures ok ==> Emitted(s, EncVarint(value))
  {
    if value <= 0x7F {
      ok := s.Write([value], 1);
      return;
    }
    var buffer := new byte[10](_ => 0);
    var i := FillVarint(buffer, value);
    ok := s.Write(buffer[..i], i);
  }

  lemma Assoc(a: bytes, b: bytes, c: bytes)
    ensures (a + b) + c == a + (b + c)
  {
  }

  /** pb_encode_svarint. */
  method EncodeSvarint(s: OStream, value: int) returns (ok: bool)
    requires s.Valid() && FitsSigned(value, 8)
    modifies s, s.buf
    ensures s.Valid()
    ensures ok == old(s.Fits(|EncVarint(ZigZag(value))|))
    ensures ok ==> Emitted(s, EncVarint(ZigZag(value)))
  {
    hide EncVarint;
    var zigzagged := if value < 0 then TWO_TO_THE_64 - 1 - ToUnsigned(value, 8) * 2 % TWO_TO_THE_64
                     else ToUnsigned(value, 8) * 2 % TWO_TO_THE_64;
    ok := EncodeVarint(s, zigzagged);
  }

  /** pb_encode_fixed32. */
  method EncodeFixed32(s: OStream, val: nat) returns (ok: bool)
    requires s.Valid() && val < TWO_TO_THE_32
    modifies s, s.buf
    ensures s.Valid()
    ensures ok == old(s.Fits(4))
    ensures ok ==> Emitted(s, LeBytes(val, 4))
  {
    var bs := [val % 256, val / 0x100 % 256, val / 0x1_0000 % 256, val / 0x100_0000 % 256];
    LeBytes4(val);
    ok := s.Write(bs, 4);
  }

  lemma ShiftTwice(v: nat, d: nat)
    requires d == 0x100 || d == 0x1_0000
    ensures v / d / 256 == v / (d * 256)
  {
  }

  lemma LeBytes4(val: nat)
    ensures LeBytes(val, 4) == [val % 256, val / 0x100 % 256, val / 0x1_0000 % 256, val / 0x100_0000 % 256]
  {
    hide LeBytes;
    ShiftTwice(val, 0x100);
    ShiftTwice(val, 0x1_0000);
    LeStep(val, 4);
    LeStep(val / 0x100, 3);
    LeStep(val / 0x1_0000, 2);
    LeStep(val / 0x100_0000, 1);
    LeStep(val / 0x100_0000 / 256, 1);
  }

  /** pb_encode_fixed64. */
  method EncodeFixed64(s: OStream, val: nat) returns (ok: bool)
    requires s.Valid() && val < TWO_TO_THE_64
    modifies s, s.buf
    ensures s.Valid()
    ensures ok == old(s.Fits(8))
    ensures ok ==> Emitted(s, LeBytes(val, 8))
  {
    var high := val / TWO_TO_THE_32;
    var bs := [val % 256, val / 0x100 % 256, val / 0x1_0000 % 256, val / 0x100_0000 % 256,
               high % 256, high / 0x100 % 256, high / 0x1_0000 % 256, high / 0x100_0000 % 256];
    LeBytes8(val);
    ok := s.Write(bs, 8);
  }

  lemma LeBytes8(val: nat)
    ensures var high := val / TWO_TO_THE_32;
            LeBytes(val, 8) == [val % 256, val / 0x100 % 256, val / 0x1_0000 % 256, val / 0x100_0000 % 256,
                                high % 256, high / 0x100 % 256, high / 0x1_0000 % 256, high / 0x100_0000 % 256]
  {
    var v1 := val / 256;
    var v2 := v1 / 256;
    var v3 := v2 / 256;
    var v4 := v3 / 256;
    LeBytes4(v4);
    assert v4 == val / TWO_TO_THE_32;
    assert v1 == val / 0x100 && v2 == val / 0x1_0000 && v3 == val / 0x100_0000;
    assert LeBytes(v3, 5) == [v3 % 256] + LeBytes(v4, 4);
    assert LeBytes(v2, 6) == [v2 % 256] + LeBytes(v3, 5);
    assert LeBytes(v1, 7) == [v1 % 256] + LeBytes(v2, 6);
    assert LeBytes(val, 8) == [val % 256] + LeBytes(v1, 7);
  }

  /** pb_encode_tag. */
  method EncodeTag(s: OStream, wireType: nat, tag: nat) returns (ok: bool)
    requires s.Valid() && wireType < 8
    modifies s, s.buf
    ensures s.Valid()
    ensures ok == old(s.Fits(|EncTag(wireType, tag)|))
    ensures ok ==> Emitted(s, EncTag(wireType, tag))
  {
    hide EncVarint;
    ok := EncodeVarint(s, (tag * 8 + wireType) % TWO_TO_THE_64);
  }

  /** pb_encode_tag_for_field. */
  method EncodeTagForField(s: OStream, f: Field) returns (ok: bool)
    requires s.Valid()
    modifies s, s.buf
    ensures s.Valid()
    ensures ok == old(s.Fits(|EncTag(WireType(f.ltype), f.tag)|))
    ensures ok ==> Emitted(s, EncTag(WireType(f.ltype), f.tag))
  {
    hide EncTag;
    var wireType := WT_STRING;
    match f.ltype {
      case Bool => wireType := WT_VARINT;
      case Varint => wireType := WT_VARINT;
      case UVarint => wireType := WT_VARINT;
      case SVarint => wireType := WT_VARINT;
      case Fixed32 => wireType := WT_32BIT;
      case Fixed64 => wireType := WT_64BIT;
      case Bytes => wireType := WT_STRING;
      case String => wireType := WT_STRING;
      case Submessage => wireType := WT_STRING;
      case FixedLengthBytes => wireType := WT_STRING;
    }
    ok := EncodeTag(s, wireType, f.tag);
  }

  /** pb_encode_string. */
  method EncodeString(s: OStream, data: bytes) returns (ok: bool)
    requires s.Valid() && |data| < TWO_TO_THE_64
    modifies s, s.buf
    ensures s.Valid()
    ensures ok == old(s.Fits(|EncLength(|data|) + data|))
    ensures ok ==> Emitted(s, EncLength(|data|) + data)
  {
    hide EncVarint;
    ok := EncodeVarint(s, |data| % TWO_TO_THE_64);
    if !ok {
      return;
    }
    Assoc(old(s.Output()), EncLength(|data|), data);
    ok := s.Write(data, |data|);
  }

  /** The byte at index i of the memory of a string. */
  function CharAt(bs: bytes, i: nat): byte {
    if i < |bs| then bs[i] else 0
  }

  /** pb_enc_string: everything up to the terminator or the end of the buffer. */
  method StringLength(f: Field, v: Value) returns (size: nat)
    requires f.ltype == String && TypedValue(f, v)
    ensures size == |v.bs|
  {
    size := 0;
    while size < f.dataSize && CharAt(v.bs, size) != 0
      invariant 0 <= size <= |v.bs|
    {
      size := size + 1;
    }
  }

  /** The field encoders PB_ENCODERS of everything but submessages. */
  method EncodeScalar(s: OStream, f: Field, v: Value) returns (ok: bool)
    requires s.Valid() && FieldOk(f) && f.ltype != Submessage && TypedValue(f, v)
    modifies s, s.buf
    ensures s.Valid()
    ensures ok <==> EncScalar(f, v).Some? && old(s.Fits(|EncScalar(f, v).value|))
    ensures ok ==> Emitted(s, EncScalar(f, v).value)
  {
    hide EncVarint, LeBytes, EncLength;
    match f.ltype {
      case Bool =>
        ok := EncodeVarint(s, if v.n != 0 then 1 else 0);
      case Varint =>
        ok := EncodeVarint(s, ToUnsigned(v.n, 8));
      case UVarint =>
        ok := EncodeVarint(s, ToUnsigned(v.n, 8));
      case SVarint =>
        CastsKeepFitting(v.n, 8);
        ok := EncodeSvarint(s, v.n);
      case Fixed32 =>
        CastsKeepFitting(v.n, 4);
        ok := EncodeFixed32(s, v.n);
      case Fixed64 =>
        CastsKeepFitting(v.n, 8);
        ok := EncodeFixed64(s, v.n);
      case Bytes =>
        var allocSize := |v.bs| + BYTES_HEADER;
        if allocSize > f.dataSize {
          return false;
        }
        ok := EncodeString(s, v.bs);
      case String =>
        var size := StringLength(f, v);
        assert v.bs[..size] == v.bs;
        ok := EncodeString(s, v.bs[..size]);
      case FixedLengthBytes =>
        assert v.bs[..f.dataSize] == v.bs;
        ok := EncodeString(s, v.bs[..f.dataSize]);
    }
  }

  // ---- the zero check ----

  /** pb_check_proto3_default_value. */
  method CheckZeroSlot(f: Field, s: Slot) returns (zero: bool)
    requires WfField(f) && TypedSlot(f, s)
    ensures zero == IsZeroSlot(f, s)
    decreases f, 0
  {
    if f.htype == Required {
      return false;
    } else if f.htype == Repeated {
      // Counted arrays are zero when empty, fixed-count arrays never.
      return if f.sizeOffset != 0 then |s.items| == 0 else false;
    } else if f.htype == Oneof {
      return s.which == 0;
    } else if f.sizeOffset != 0 {
      return !s.has;
    }
    // What remains has no flag and is judged by its value.
    zero := CheckZeroValue(f, s.v);
  }

  method CheckZeroValue(f: Field, v: Value) returns (zero: bool)
    requires WfField(f) && TypedValue(f, v)
    ensures zero == IsZeroValue(f, v)
    decreases f, -1
  {
    if f.ltype == Bytes {
      zero := |v.bs| == 0;
    } else if f.ltype == String {
      zero := CharAt(v.bs, 0) == 0;
    } else if f.ltype == FixedLengthBytes {
      zero := f.dataSize == 0;
    } else if f.ltype == Submessage {
      TypedIsShaped(f.sub, v.slots);
      var src := new Struct(f.sub, v.slots);
      zero := CheckZeroFields(f.sub, src, v.slots);
    } else {
      // A number is zero when all its bytes are.
      zero := v.n == 0;
    }
  }

  /** The loop over the fields of a submessage. */
  method CheckZeroFields(fs: seq<Field>, src: Struct, ghost m: seq<Slot>) returns (zero: bool)
    requires WfDesc(fs) && |m| == |fs| && TypedMsg(fs, 0, m)
    requires src.Holds(fs, m)
    ensures zero == AllZero(fs, 0, m)
    decreases fs
  {
    hide WfDesc, TypedSlot, IsZeroSlot, ContentsOf, HasShape, Shaped, DataAddress, SizeAddress, SlotOf, RequiredBefore;
    var iter := new FieldIter(fs);
    var any := iter.Begin();
    if !any {
      return true;
    }
    while true
      invariant iter.Coherent() && iter.fields == fs && iter.pos < |fs|
      invariant TypedMsg(fs, iter.pos, m)
      invariant AllZero(fs, 0, m) <==> AllZero(fs, iter.pos, m)
      decreases |fs| - iter.pos
    {
      WfDescField(fs, iter.pos);
      Loaded(fs, src.cells, iter.pos);
      var isZero := CheckZeroSlot(fs[iter.pos], src.cells[iter.pData]);
      if !isZero {
        return false;
      }
      var more := iter.Next();
      if !more {
        break;
      }
    }
    zero := true;
  }

  // ---- fields and messages ----

  /** The encoder of a data item, PB_ENCODERS. */
  method EncodeValue(s: OStream, f: Field, v: Value) returns (ok: bool)
    requires s.Valid() && WfField(f) && TypedValue(f, v)
    modifies s, s.buf
    ensures s.Valid()
    ensures ok <==> EncValue(f, v).Some? && old(s.Fits(|EncValue(f, v).value|))
    ensures ok ==> Emitted(s, EncValue(f, v).value)
    decreases f, 0, 0
  {
    if f.ltype == Submessage {
      TypedIsShaped(f.sub, v.slots);
      var src := new Struct(f.sub, v.slots);
      ok := EncodeSubmessage(s, f.sub, src, v.slots);
    } else {
      ok := EncodeScalar(s, f, v);
    }
  }

  /** pb_encode_tag_for_field and the data item. */
  method EncodeTaggedValue(s: OStream, f: Field, v: Value) returns (ok: bool)
    requires s.Valid() && WfField(f) && TypedValue(f, v)
    modifies s, s.buf
    ensures s.Valid()
    ensures ok <==> EncTagged(f, v).Some? && old(s.Fits(|EncTagged(f, v).value|))
    ensures ok ==> Emitted(s, EncTagged(f, v).value)
    decreases f, 1, 0
  {
    hide EncTag, EncValue, TypedValue;
    ok := EncodeTagForField(s, f);
    if !ok {
      return;
    }
    ok := EncodeValue(s, f, v);
    if ok {
      Assoc(old(s.Output()), EncTag(WireType(f.ltype), f.tag), EncValue(f, v).value);
    }
  }

  /** The elements of an array one after the other, with a tag for each unless it is packed. */
  method EncodeItems(s: OStream, f: Field, items: seq<Value>, packed: bool) returns (ok: bool)
    requires s.Valid() && WfField(f) && TypedItems(f, items)
    modifies s, s.buf
    ensures s.Valid()
    ensures var e := if packed then EncPacked(f, items) else EncUnpacked(f, items);
            && (ok <==> e.Some? && old(s.Fits(|e.value|)))
            && (ok ==> Emitted(s, e.value))
    decreases f, 2, 0
  {
    hide EncTagged, EncValue, TypedValue, EncPacked, EncUnpacked;
    ghost var e := if packed then EncPacked(f, items) else EncUnpacked(f, items);
    ghost var w: bytes := [];
    var i := 0;
    assert items[0..] == items;
    JoinNothing(e);
    while i < |items|
      invariant 0 <= i <= |items| && s.Valid()
      invariant e == Join(Some(w), if packed then EncPacked(f, items[i..]) else EncUnpacked(f, items[i..]))
      invariant Emitted(s, w)
    {
      ghost var x := if packed then EncValue(f, items[i]) else EncTagged(f, items[i]);
      ItemsFrom(f, items, i, packed, w);
      if packed {
        ok := EncodeValue(s, f, items[i]);
      } else {
        ok := EncodeTaggedValue(s, f, items[i]);
      }
      if !ok {
        return;
      }
      Assoc(old(s.Output()), w, x.value);
      w := w + x.value;
      i := i + 1;
    }
    assert items[i..] == [];
    NoItems(f);
    assert w + [] == w;
    ok := true;
  }

  lemma NoItems(f: Field)
    ensures EncPacked(f, []) == Some([]) && EncUnpacked(f, []) == Some([])
  {
  }

  lemma JoinNothing(e: Option<bytes>)
    ensures Join(Some([]), e) == e
  {
    if e.Some? {
      assert [] + e.value == e.value;
    }
  }

  /** The first of the elements still to write, and the rest. */
  lemma ItemsFrom(f: Field, items: seq<Value>, i: nat, packed: bool, w: bytes)
    requires i < |items|
    ensures var x := if packed then EncValue(f, items[i]) else EncTagged(f, items[i]);
            var r := Join(Some(w), if packed then EncPacked(f, items[i..]) else EncUnpacked(f, items[i..]));
            && (x.None? ==> r.None?)
            && (x.Some? ==> r == Join(Some(w + x.value),
                                      if packed then EncPacked(f, items[i + 1..]) else EncUnpacked(f, items[i + 1..])))
            && (r.Some? ==> |w| + |x.value| <= |r.value|)
  {
    hide EncTagged, EncValue;
    assert items[i..][0] == items[i] && items[i..][1..] == items[i + 1..];
    var x := if packed then EncValue(f, items[i]) else EncTagged(f, items[i]);
    var later := if packed then EncPacked(f, items[i + 1..]) else EncUnpacked(f, items[i + 1..]);
    if x.Some? && later.Some? {
      Assoc(w, x.value, later.value);
    }
  }

  /** The size of the data of a packed array: computed for fixed-width elements, otherwise
      measured with a counting stream. */
  method PackedSize(f: Field, items: seq<Value>) returns (ok: bool, size: nat)
    requires WfField(f) && TypedItems(f, items) && f.ltype.Packable()
    ensures ok <==> EncPacked(f, items).Some?
    ensures ok ==> size == |EncPacked(f, items).value|
    decreases f, 3, 0
  {
    if f.ltype == Fixed32 {
      size := 4 * |items|;
      FixedPackedSize(f, items, 4);
      ok := true;
    } else if f.ltype == Fixed64 {
      size := 8 * |items|;
      FixedPackedSize(f, items, 8);
      ok := true;
    } else {
      var sizeStream := new OStream.Sizing();
      ok := EncodeItems(sizeStream, f, items, true);
      size := sizeStream.bytesWritten;
    }
  }

  lemma {:induction false} FixedPackedSize(f: Field, items: seq<Value>, width: nat)
    requires (f.ltype == Fixed32 && width == 4) || (f.ltype == Fixed64 && width == 8)
    requires TypedItems(f, items)
    ensures EncPacked(f, items).Some? && |EncPacked(f, items).value| == width * |items|
  {
    if items != [] {
      FixedPackedSize(f, items[1..], width);
    }
  }

  /** encode_array. */
  method EncodeArray(s: OStream, f: Field, items: seq<Value>) returns (ok: bool)
    requires s.Valid() && WfField(f) && TypedItems(f, items)
    modifies s, s.buf
    ensures s.Valid()
    ensures ok <==> EncArray(f, items).Some? && old(s.Fits(|EncArray(f, items).value|))
    ensures ok ==> Emitted(s, EncArray(f, items).value)
    decreases f, 4, 0
  {
    hide EncPacked, EncUnpacked, EncTag, EncLength;
    if |items| == 0 {
      assert s.Output() + [] == s.Output();
      return true;
    }
    if |items| > f.arraySize {
      return false;
    }
    if f.ltype.Packable() {
      ok := EncodeTag(s, WT_STRING, f.tag);
      if !ok {
        return;
      }
      var size;
      ok, size := PackedSize(f, items);
      if !ok {
        return;
      }
      ghost var tag, p := EncTag(WT_STRING, f.tag), EncPacked(f, items).value;
      ok := EncodeLength(s, size);
      if !ok {
        return;
      }
      Assoc(old(s.Output()), tag, EncLength(size));
      Assoc(old(s.Output()), tag + EncLength(size), p);
      Assoc(tag, EncLength(size), p);
      if s.buf == null {
        ok := s.Write([], size);  // nothing is stored, only counted
        return;
      }
      ok := EncodeItems(s, f, items, true);
    } else {
      ok := EncodeItems(s, f, items, false);
    }
  }

  /** A length, written as a varint. */
  method EncodeLength(s: OStream, size: nat) returns (ok: bool)
    requires s.Valid()
    modifies s, s.buf
    ensures s.Valid()
    ensures ok == old(s.Fits(|EncLength(size)|))
    ensures ok ==> Emitted(s, EncLength(size))
  {
    hide EncVarint;
    ok := EncodeVarint(s, size % TWO_TO_THE_64);
  }

  /** encode_basic_field: required fields always, optional ones when present, arrays, and the
      union member that is set. */
  method EncodeBasicField(s: OStream, f: Field, slot: Slot) returns (ok: bool)
    requires s.Valid() && WfField(f) && TypedSlot(f, slot)
    modifies s, s.buf
    ensures s.Valid()
    ensures ok <==> EncSlot(f, slot).Some? && old(s.Fits(|EncSlot(f, slot).value|))
    ensures ok ==> Emitted(s, EncSlot(f, slot).value)
    decreases f, 5, 0
  {
    hide EncTagged, EncArray, IsZeroValue, TypedValue;
    assert s.Output() + [] == s.Output();
    match f.htype {
      case Required =>
        ok := EncodeTaggedValue(s, f, slot.v);
      case Optional =>
        var has;
        if f.sizeOffset != 0 {
          has := slot.has;
        } else {
          // Without a flag, presence is a value other than zero.
          var zero := CheckZeroSlot(f, slot);
          has := !zero;
        }
        if has {
          ok := EncodeTaggedValue(s, f, slot.v);
        } else {
          ok := true;
        }
      case Repeated =>
        ok := EncodeArray(s, f, slot.items);
      case Oneof =>
        if slot.which == f.tag {
          ok := EncodeTaggedValue(s, f, slot.v);
        } else {
          ok := true;
        }
    }
  }

  /** pb_encode: writes exactly the encoding of the message, and fails exactly when there is
      none or the stream has no room for it. */
  method Encode(s: OStream, fs: seq<Field>, src: Struct, ghost m: seq<Slot>) returns (ok: bool)
    requires s.Valid() && WfDesc(fs) && |m| == |fs| && TypedMsg(fs, 0, m)
    requires src.Holds(fs, m)
    modifies s, s.buf
    ensures s.Valid()
    ensures ok <==> Enc(fs, m).Some? && old(s.Fits(|Enc(fs, m).value|))
    ensures ok ==> Emitted(s, Enc(fs, m).value)
    decreases fs, 6, 0
  {
    hide WfDesc, TypedSlot, TypedMsg, EncSlot, EncFields, Join;
    hide ContentsOf, HasShape, Shaped, DataAddress, SizeAddress, SlotOf, RequiredBefore;
    var iter := new FieldIter(fs);
    var any := iter.Begin();
    ghost var w: bytes := [];
    ghost var cells := src.cells;
    JoinNothing(Enc(fs, m));
    if !any {
      EmptyMessage(fs, m);
      assert s.Output() + [] == s.Output();
      return true;  // no fields to write
    }
    while true
      invariant iter.Coherent() && iter.fields == fs && iter.pos < |fs| && s.Valid()
      invariant TypedMsg(fs, iter.pos, m)
      invariant Enc(fs, m) == Join(Some(w), EncFields(fs, iter.pos, m))
      invariant Emitted(s, w) && src.cells == cells
      decreases |fs| - iter.pos
    {
      ghost var i := iter.pos;
      ghost var e := EncSlot(fs[i], m[SlotOf(fs, i)]);
      WfDescField(fs, i);
      Loaded(fs, cells, i);
      FieldsFrom(fs, i, m, w);
      ok := EncodeBasicField(s, fs[iter.pos], src.cells[iter.pData]);
      if !ok {
        return;
      }
      assert Emitted(s, w + e.value) by {
        Assoc(old(s.Output()), w, e.value);
      }
      w := w + e.value;
      var more := iter.Next();
      if !more {
        break;
      }
    }
    JoinEnd(w);
    ok := true;
  }

  lemma JoinEnd(w: bytes)
    ensures Join(Some(w), Some([])) == Some(w)
  {
    assert w + [] == w;
  }

  lemma EmptyMessage(fs: seq<Field>, m: seq<Slot>)
    requires fs == [] && |m| == |fs|
    ensures Enc(fs, m) == Some([])
  {
  }

  /** The encoding of field i and of the fields behind it. */
  lemma FieldsFrom(fs: seq<Field>, i: nat, m: seq<Slot>, w: bytes)
    requires i < |fs| == |m| && TypedMsg(fs, i, m)
    ensures TypedSlot(fs[i], m[SlotOf(fs, i)]) && TypedMsg(fs, i + 1, m)
    ensures var x, r := EncSlot(fs[i], m[SlotOf(fs, i)]), Join(Some(w), EncFields(fs, i, m));
            && (x.None? ==> r.None?)
            && (x.Some? ==> r == Join(Some(w + x.value), EncFields(fs, i + 1, m)))
            && (r.Some? ==> |w| + |x.value| <= |r.value|)
            && (i + 1 == |fs| ==> EncFields(fs, i + 1, m) == Some([]))
  {
    hide EncSlot, TypedSlot;
    var x, later := EncSlot(fs[i], m[SlotOf(fs, i)]), EncFields(fs, i + 1, m);
    if x.Some? && later.Some? {
      Assoc(w, x.value, later.value);
    }
  }

  /** pb_encode_submessage: measures the message, writes its size and then the message. The
      second pass always writes as many bytes as the first one counted. */
  method EncodeSubmessage(s: OStream, fs: seq<Field>, src: Struct, ghost m: seq<Slot>) returns (ok: bool)
    requires s.Valid() && WfDesc(fs) && |m| == |fs| && TypedMsg(fs, 0, m)
    requires src.Holds(fs, m)
    modifies s, s.buf
    ensures s.Valid()
    ensures ok <==> Enc(fs, m).Some? && old(s.Fits(|WithLength(Enc(fs, m)).value|))
    ensures ok ==> Emitted(s, WithLength(Enc(fs, m)).value)
    decreases fs, 7, 0
  {
    hide WfDesc, Enc, EncLength, TypedMsg, Struct.Holds;
    var sizeStream := new OStream.Sizing();
    ok := Encode(sizeStream, fs, src, m);
    if !ok {
      return;
    }
    var size := sizeStream.bytesWritten;
    ok := EncodeLength(s, size);
    if !ok {
      return;
    }
    Assoc(old(s.Output()), EncLength(size), Enc(fs, m).value);
    if s.buf == null {
      ok := s.Write([], size);  // nothing is stored, only counted
      return;
    }
    if s.bytesWritten + size > s.maxSize {
      return false;
    }
    var substream := new OStream.Substream(s, size);
    var status := Encode(substream, fs, src, m);
    s.bytesWritten := s.bytesWritten + substream.bytesWritten;
    s.state := substream.state;
    if substream.bytesWritten != size {
      assert false;  // the size of a submessage never changes
    }
    return status;
  }

  /** pb_encode_delimited. */
  method EncodeDelimited(s: OStream, fs: seq<Field>, src: Struct, ghost m: seq<Slot>) returns (ok: bool)
    requires s.Valid() && WfDesc(fs) && |m| == |fs| && TypedMsg(fs, 0, m)
    requires src.Holds(fs, m)
    modifies s, s.buf
    ensures s.Valid()
    ensures ok <==> Enc(fs, m).Some? && old(s.Fits(|WithLength(Enc(fs, m)).value|))
    ensures ok ==> Emitted(s, WithLength(Enc(fs, m)).value)
  {
    ok := EncodeSubmessage(s, fs, src, m);
  }

  /** pb_encode_nullterminated. */
  method EncodeNullTerminated(s: OStream, fs: seq<Field>, src: Struct, ghost m: seq<Slot>) returns (ok: bool)
    requires s.Valid() && WfDesc(fs) && |m| == |fs| && TypedMsg(fs, 0, m)
    requires src.Holds(fs, m)
    modifies s, s.buf
    ensures s.Valid()
    ensures ok <==> Enc(fs, m).Some? && old(s.Fits(|Enc(fs, m).value| + 1))
    ensures ok ==> Emitted(s, Enc(fs, m).value + [0])
  {
    hide WfDesc, Enc, TypedMsg;
    ok := Encode(s, fs, src, m);
    if !ok {
      return;
    }
    Assoc(old(s.Output()), Enc(fs, m).value, [0]);
    ok := s.Write([0], 1);
  }

  /** pb_get_encoded_size: the number of bytes pb_encode writes. */
  method GetEncodedSize(fs: seq<Field>, src: Struct, ghost m: seq<Slot>) returns (ok: bool, size: nat)
    requires WfDesc(fs) && |m| == |fs| && TypedMsg(fs, 0, m)
    requires src.Holds(fs, m)
    ensures ok <==> Enc(fs, m).Some?
    ensures ok ==> size == |Enc(fs, m).value|
  {
    hide WfDesc, Enc, TypedMsg;
    var stream := new OStream.Sizing();
    ok := Encode(stream, fs, src, m);
    size := stream.bytesWritten;
  }
}
