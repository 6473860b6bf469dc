/** pb_decode.c: the input stream and the decoder that fills a message struct. */
module Decoder {
  import opened Bytes
  import opened Integers
  import opened Varint
  import opened Descriptor
  import opened Encoding
  import opened Decoding
  import opened FieldIteration
  import Bitmap

  /** pb_istream_t over a buffer. */
  class IStream {
    const buf: bytes
    var state: nat  // offset of the next byte in buf
    var bytesLeft: nat

    ghost predicate Valid()
      reads this
    {
      state + bytesLeft <= |buf|
    }

    /** The bytes still to be read. */
    ghost function Rest(): (r: bytes)
      requires Valid()
      reads this
      ensures |r| == bytesLeft
    {
      buf[state..state + bytesLeft]
    }

    /** pb_istream_from_buffer. */
    constructor FromBuffer(buf: bytes)
      ensures Valid() && Rest() == buf && state == 0
    {
      this.buf, state, bytesLeft := buf, 0, |buf|;
    }

    /** A view of the first n bytes of another stream. */
    constructor Substream(parent: IStream, n: nat)
      requires parent.Valid() && n <= parent.bytesLeft
      ensures Valid() && buf == parent.buf && state == parent.state && bytesLeft == n
      ensures Rest() == parent.Rest()[..n]
    {
      buf, state, bytesLeft := parent.buf, parent.state, n;
    }

    /** pb_read: copies the bytes to dest, or skips them when there is none. */
    method Read(dest: array?<byte>, count: nat) returns (ok: bool)
      requires Valid() && (dest != null ==> count <= dest.Length)
      modifies this, dest
      ensures Valid() && state + bytesLeft == old(state + bytesLeft)
      ensures ok == (count <= old(bytesLeft))
      ensures bytesLeft == if ok then old(bytesLeft) - count else old(bytesLeft)
      ensures ok ==> Rest() == old(Rest())[count..]
      ensures ok && dest != null ==> dest[..count] == old(Rest())[..count]
    {
      if count == 0 {
        return true;
      }
      if bytesLeft < count {
        return false;
      }
      BufRead(dest, count);
      bytesLeft := bytesLeft - count;
      return true;
    }

    /** buf_read. */
    method BufRead(dest: array?<byte>, count: nat)
      requires Valid() && count <= bytesLeft && (dest != null ==> count <= dest.Length)
      modifies this`state, dest
      ensures state == old(state) + count
      ensures dest != null ==> dest[..count] == buf[old(state)..old(state) + count]
    {
      var source := state;
      state := state + count;
      if dest != null {
        for i := 0 to count
          invariant state == source + count
          invariant dest[..i] == buf[source..source + i]
        {
          dest[i] := buf[source + i];
        }
      }
    }

    /** pb_readbyte. */
    method ReadByte() returns (ok: bool, b: byte)
      requires Valid()
      modifies this
      ensures Valid() && state + bytesLeft == old(state + bytesLeft)
      ensures ok == (old(bytesLeft) > 0)
      ensures ok ==> [b] + Rest() == old(Rest()) && b == old(Rest())[0] && Rest() == old(Rest())[1..]
      ensures !ok ==> bytesLeft == 0
    {
      if bytesLeft == 0 {
        return false, 0;
      }
      b := buf[state];
      state := state + 1;
      bytesLeft := bytesLeft - 1;
      ok := true;
    }
  }

  /** The stream was read up to rest, and its end is where it was. */
  twostate predicate Consumed(s: IStream, rest: bytes)
    requires old(s.Valid())
    reads s
  {
    s.Valid() && s.Rest() == rest && s.state + s.bytesLeft == old(s.state + s.bytesLeft)
  }

  /** The stream moved forward, and its end did not move away. */
  twostate predicate Advanced(s: IStream)
    requires old(s.Valid())
    reads s
  {
    s.Valid() && s.bytesLeft <= old(s.bytesLeft) && s.state + s.bytesLeft <= old(s.state + s.bytesLeft)
  }

  /** pb_decode_varint32_eof. */
  method DecodeVarint32Eof(s: IStream) returns (ok: bool, dest: nat, eof: bool)
    requires s.Valid()
    modifies s
    ensures Advanced(s)
    ensures ok == Dec32(old(s.Rest())).Some?
    ensures ok ==> dest == Dec32(old(s.Rest())).value.0 && Consumed(s, Dec32(old(s.Rest())).value.1)
    ensures eof == (old(s.bytesLeft) == 0)
  {
    hide Or, Pow2;
    dest, eof := 0, false;
    var b;
    ok, b := s.ReadByte();
    if !ok {
      if s.bytesLeft == 0 {
        eof := true;
      }
      return;
    }
    var result: nat;
    if b < 128 {
      // one byte holds it all
      result := b;
    } else {
      var bitpos := 7;
      result := b % 128;
      while true
        invariant s.Valid() && s.state + s.bytesLeft == old(s.state + s.bytesLeft)
        invariant s.bytesLeft < old(s.bytesLeft) && 0 <= bitpos < 256
        invariant Dec32(old(s.Rest())) == Dec32Loop(s.Rest(), bitpos, result)
        decreases s.bytesLeft
      {
        ok, b := s.ReadByte();
        if !ok {
          return;
        }
        if bitpos >= 32 {
          // Only zero groups and the sign bits of a negative number may follow.
          var signExtension := if bitpos < 63 then 0xFF else 0x01;
          if b % 128 != 0 && (result < TWO_TO_THE_31 || b != signExtension) {
            return false, 0, false;
          }
        } else {
          result := Or(result, (b % 128) * Pow2(bitpos) % TWO_TO_THE_32);
        }
        bitpos := (bitpos + 7) % 256;
        if b < 128 {
          break;
        }
      }
      if bitpos == 35 && (b / 16) % 8 != 0 {
        // The fifth group has four bits to spare for 32-bit numbers.
        return false, 0, false;
      }
    }
    dest := result;
  }

  /** pb_decode_varint32. */
  method DecodeVarint32(s: IStream) returns (ok: bool, dest: nat)
    requires s.Valid()
    modifies s
    ensures Advanced(s)
    ensures ok == Dec32(old(s.Rest())).Some?
    ensures ok ==> dest == Dec32(old(s.Rest())).value.0 && Consumed(s, Dec32(old(s.Rest())).value.1)
  {
    var eof;
    ok, dest, eof := DecodeVarint32Eof(s);
  }

  /** pb_decode_varint. */
  method DecodeVarint(s: IStream) returns (ok: bool, dest: nat)
    requires s.Valid()
    modifies s
    ensures Advanced(s)
    ensures ok == DecVarint(old(s.Rest())).Some?
    ensures ok ==> dest == DecVarint(old(s.Rest())).value.0 && Consumed(s, DecVarint(old(s.Rest())).value.1)
  {
    hide Or, Pow2, GroupSum, ReadRun;
    var bitpos, result: nat, k := 0, 0, 0;
    ghost var all := s.Rest();
    dest := 0;
    assert GroupSum([]) == 0 by { EmptySum(); }
    while true
      invariant s.Valid() && s.state + s.bytesLeft == old(s.state + s.bytesLeft)
      invariant 0 <= k <= 10 && k <= |all| && bitpos == 7 * k && s.Rest() == all[k..]
      invariant forall i :: 0 <= i < k ==> all[i] >= 128
      invariant result == GroupSum(all[..k]) % TWO_TO_THE_64
      decreases s.bytesLeft
    {
      ReadRunSplit(all, k, 10);
      if bitpos >= 64 {
        NoRoom(all[k..]);
        return false, 0;
      }
      var b;
      ok, b := s.ReadByte();
      if !ok {
        RunAtEnd(all[k..], 10 - k);
        return;
      }
      GroupSumSmall(all[..k]);
      VarintGroup(all[..k], b);
      assert all[..k] + [b] == all[..k + 1];
      result := Or(result, b % 128 * Pow2(bitpos) % TWO_TO_THE_64);
      bitpos := bitpos + 7;
      if b < 128 {
        RunAtByte(all[k..], 10 - k);
        assert all[..k] + [b] == all[..k + 1] && all[k..][1..] == all[k + 1..];
        break;
      }
      k := k + 1;
    }
    dest := result;
  }

  /** pb_decode_tag; eof also reports a zero tag, which ends a message. */
  method DecodeTag(s: IStream) returns (ok: bool, wireType: nat, tag: nat, eof: bool)
    requires s.Valid() && s.bytesLeft > 0
    modifies s
    ensures Advanced(s)
    ensures match DecTag(old(s.Rest()))
            case BadTag => !ok && !eof
            case EndTag(rest) => !ok && eof && Consumed(s, rest)
            case GoodTag(t, wt, rest) => ok && tag == t && wireType == wt && Consumed(s, rest)
  {
    hide Dec32;
    wireType, tag := 0, 0;
    var temp;
    ok, temp, eof := DecodeVarint32Eof(s);
    if !ok {
      return;
    }
    if temp == 0 {
      // A zero ends the message.
      return false, 0, 0, true;
    }
    tag := temp / 8;
    wireType := temp % 8;
  }

  // ---- skipping ----

  /** pb_skip_varint. */
  method ReadPastVarint(s: IStream) returns (ok: bool)
    requires s.Valid()
    modifies s
    ensures Advanced(s)
    ensures ok == SkipVarint(old(s.Rest())).Some?
    ensures ok ==> Consumed(s, SkipVarint(old(s.Rest())).value)
  {
    while true
      invariant s.Valid() && s.state + s.bytesLeft == old(s.state + s.bytesLeft) && s.bytesLeft <= old(s.bytesLeft)
      invariant SkipVarint(old(s.Rest())) == SkipVarint(s.Rest())
      decreases s.bytesLeft
    {
      var b;
      ok, b := s.ReadByte();
      if !ok {
        return;
      }
      if b < 128 {
        return true;
      }
    }
  }

  /** pb_skip_string. */
  method ReadPastString(s: IStream) returns (ok: bool)
    requires s.Valid()
    modifies s
    ensures Advanced(s)
    ensures ok == DecChunk(old(s.Rest())).Some?
    ensures ok ==> Consumed(s, DecChunk(old(s.Rest())).value.1)
  {
    hide Dec32;
    var length;
    ok, length := DecodeVarint32(s);
    if !ok {
      return;
    }
    ok := s.Read(null, length);
  }

  /** pb_skip_field. */
  method ReadPastField(s: IStream, wireType: nat) returns (ok: bool)
    requires s.Valid()
    modifies s
    ensures Advanced(s)
    ensures ok == SkipField(wireType, old(s.Rest())).Some?
    ensures ok ==> Consumed(s, SkipField(wireType, old(s.Rest())).value)
  {
    hide DecChunk, SkipVarint;
    if wireType == WT_VARINT {
      ok := ReadPastVarint(s);
    } else if wireType == WT_64BIT {
      ok := s.Read(null, 8);
    } else if wireType == WT_STRING {
      ok := ReadPastString(s);
    } else if wireType == WT_32BIT {
      ok := s.Read(null, 4);
    } else {
      ok := false;
    }
  }

  // ---- substreams ----

  /** rest is what follows, in the parent stream, the end of a substream. */
  ghost predicate EndsBefore(sub: IStream, s: IStream, rest: bytes)
    reads s, sub
  {
    && sub != s && sub.buf == s.buf && sub.Valid() && s.bytesLeft == |rest|
    && sub.state + sub.bytesLeft + |rest| <= |s.buf|
    && s.buf[sub.state + sub.bytesLeft..sub.state + sub.bytesLeft + |rest|] == rest
  }

  /** pb_make_string_substream. */
  method MakeStringSubstream(s: IStream) returns (ok: bool, sub: IStream)
    requires s.Valid()
    modifies s
    ensures Advanced(s)
    ensures fresh(sub)
    ensures ok == DecChunk(old(s.Rest())).Some?
    ensures ok ==> var (chunk, rest) := DecChunk(old(s.Rest())).value;
                   && sub.Valid() && sub.Rest() == chunk && EndsBefore(sub, s, rest)
                   && sub.state + sub.bytesLeft + s.bytesLeft == old(s.state + s.bytesLeft)
  {
    hide Dec32;
    var size;
    ok, size := DecodeVarint32(s);
    if !ok || s.bytesLeft < size {
      sub := new IStream.Substream(s, 0);
      return false, sub;
    }
    sub := new IStream.Substream(s, size);
    s.bytesLeft := s.bytesLeft - size;
  }

  /** pb_close_string_substream: however little of the substream was read, the parent ends up
      exactly past it. */
  method CloseStringSubstream(s: IStream, sub: IStream, ghost rest: bytes) returns (ok: bool)
    requires sub != s && sub.buf == s.buf && sub.Valid() && sub.state + sub.bytesLeft + s.bytesLeft <= |s.buf|
    modifies s, sub
    ensures ok && s.Valid()
    ensures s.state == old(sub.state + sub.bytesLeft) && s.bytesLeft == old(s.bytesLeft)
    ensures old(EndsBefore(sub, s, rest)) ==> s.Rest() == rest
  {
    ok := true;
    if sub.bytesLeft > 0 {
      ok := sub.Read(null, sub.bytesLeft);
    }
    s.state := sub.state;
  }

  // ---- scalar field decoders ----

  /** Four bytes, or-ed together at their shifts. */
  function Word(b0: nat, b1: nat, b2: nat, b3: nat): nat {
    b0 + b1 * 0x100 + b2 * 0x1_0000 + b3 * 0x100_0000
  }

  lemma LeValue4(bs: bytes)
    requires |bs| == 4
    ensures LeValue(bs) == Word(bs[0], bs[1], bs[2], bs[3])
  {
    assert bs[3..][1..] == [] && bs[2..][1..] == bs[3..] && bs[1..][1..] == bs[2..];
    assert LeValue(bs[3..]) == bs[3];
    assert LeValue(bs[2..]) == bs[2] + 256 * LeValue(bs[3..]);
    assert LeValue(bs[1..]) == bs[1] + 256 * LeValue(bs[2..]);
  }

  lemma LeValue8(bs: bytes)
    requires |bs| == 8
    ensures LeValue(bs) == LeValue(bs[..4]) + LeValue(bs[4..]) * TWO_TO_THE_32
  {
    LeValue4(bs[..4]);
    var t := LeValue(bs[4..]);
    assert bs[3..][1..] == bs[4..] && bs[2..][1..] == bs[3..] && bs[1..][1..] == bs[2..];
    assert LeValue(bs[3..]) == bs[3] + 256 * t;
    assert LeValue(bs[2..]) == bs[2] + 256 * LeValue(bs[3..]);
    assert LeValue(bs[1..]) == bs[1] + 256 * LeValue(bs[2..]);
  }

  /** pb_decode_fixed32. */
  method DecodeFixed32(s: IStream) returns (ok: bool, dest: nat)
    requires s.Valid()
    modifies s
    ensures Advanced(s)
    ensures ok == (old(s.bytesLeft) >= 4)
    ensures ok ==> dest == LeValue(old(s.Rest())[..4]) && Consumed(s, old(s.Rest())[4..])
  {
    var bs := new byte[4](_ => 0);
    dest := 0;
    ok := s.Read(bs, 4);
    if ok {
      LeValue4(bs[..4]);
      dest := Word(bs[0], bs[1], bs[2], bs[3]);
    }
  }

  /** pb_decode_fixed64. */
  method DecodeFixed64(s: IStream) returns (ok: bool, dest: nat)
    requires s.Valid()
    modifies s
    ensures Advanced(s)
    ensures ok == (old(s.bytesLeft) >= 8)
    ensures ok ==> dest == LeValue(old(s.Rest())[..8]) && Consumed(s, old(s.Rest())[8..])
  {
    var bs := new byte[8](_ => 0);
    dest := 0;
    ok := s.Read(bs, 8);
    if ok {
      ghost var all := bs[..8];
      LeValue8(all);
      LeValue4(all[..4]);
      LeValue4(all[4..]);
      dest := Word(bs[0], bs[1], bs[2], bs[3]) + Word(bs[4], bs[5], bs[6], bs[7]) * TWO_TO_THE_32;
    }
  }

  /** Reads count bytes into new memory. */
  method ReadBytes(s: IStream, count: nat) returns (ok: bool, data: bytes)
    requires s.Valid()
    modifies s
    ensures Advanced(s)
    ensures ok == Take(old(s.Rest()), count).Some?
    ensures ok ==> data == Take(old(s.Rest()), count).value.0 && Consumed(s, Take(old(s.Rest()), count).value.1)
  {
    var dest := new byte[count](_ => 0);
    ok := s.Read(dest, count);
    data := dest[..count];
  }

  /** pb_dec_varint, pb_dec_uvarint and pb_dec_svarint: casts to the field's width and rejects
      numbers that do not fit. */
  method DecodeInteger(s: IStream, f: Field) returns (ok: bool, v: Value)
    requires s.Valid() && (f.ltype == Varint || f.ltype == UVarint || f.ltype == SVarint)
    modifies s
    ensures Advanced(s)
    ensures ok == DecScalar(f, old(s.Rest())).Some?
    ensures ok ==> v == DecScalar(f, old(s.Rest())).value.0 && Consumed(s, DecScalar(f, old(s.Rest())).value.1)
  {
    hide DecVarint, UnZigZag;
    v := Stale;
    var value;
    ok, value := DecodeVarint(s);
    if !ok {
      return;
    }
    if !IsWidth(f.dataSize) {
      return false, Stale;
    }
    if f.ltype == Varint {
      // Narrow fields take their sign from bit 31.
      var svalue := if f.dataSize == 8 then ToSigned(value, 8) else ToSigned(value, 4);
      var clamped := ToSigned(svalue, f.dataSize);
      CastsKeepFitting(svalue, f.dataSize);
      return clamped == svalue, Num(clamped);
    } else if f.ltype == UVarint {
      var clamped := ToUnsigned(value, f.dataSize);
      UnsignedCast(value, f.dataSize);
      return clamped == value, Num(clamped);
    } else {
      var svalue := UnZigZag(value);
      var clamped := ToSigned(svalue, f.dataSize);
      CastsKeepFitting(svalue, f.dataSize);
      return clamped == svalue, Num(clamped);
    }
  }

  lemma UnsignedCast(v: nat, size: nat)
    requires IsWidth(size)
    ensures ToUnsigned(v, size) == v <==> FitsUnsigned(v, size)
  {
  }

  /** pb_dec_bytes, pb_dec_string and pb_dec_fixed_length_bytes. */
  method DecodeBlob(s: IStream, f: Field) returns (ok: bool, v: Value)
    requires s.Valid() && (f.ltype == Bytes || f.ltype == String || f.ltype == FixedLengthBytes)
    modifies s
    ensures Advanced(s)
    ensures ok == DecScalar(f, old(s.Rest())).Some?
    ensures ok ==> v == DecScalar(f, old(s.Rest())).value.0 && Consumed(s, DecScalar(f, old(s.Rest())).value.1)
  {
    hide Dec32, WithTerminator, CString;
    v := Stale;
    var size;
    ok, size := DecodeVarint32(s);
    if !ok {
      return;
    }
    var data;
    if f.ltype == Bytes {
      var allocSize := size + BYTES_HEADER;
      if allocSize > f.dataSize {
        return false, Stale;
      }
      ok, data := ReadBytes(s, size);
      v := Raw(data);
    } else if f.ltype == String {
      // one byte more than the text
      var allocSize := WithTerminator(size);
      if allocSize < size || allocSize > f.dataSize {
        return false, Stale;
      }
      ok, data := ReadBytes(s, size);
      v := Raw(CString(data));
    } else {
      if size == 0 {
        // Nothing at all means zeros.
        return true, Raw(Zeros(f.dataSize));
      }
      if size != f.dataSize {
        return false, Stale;
      }
      ok, data := ReadBytes(s, size);
      v := Raw(data);
    }
  }

  /** The field decoders PB_DECODERS of everything but submessages. */
  method DecodeScalar(s: IStream, f: Field) returns (ok: bool, v: Value)
    requires s.Valid() && f.ltype != Submessage
    modifies s
    ensures Advanced(s)
    ensures ok == DecScalar(f, old(s.Rest())).Some?
    ensures ok ==> v == DecScalar(f, old(s.Rest())).value.0 && Consumed(s, DecScalar(f, old(s.Rest())).value.1)
  {
    hide Dec32, LeValue;
    if f.ltype == Bool {
      var n;
      ok, n := DecodeVarint32(s);
      v := Num(if n != 0 then 1 else 0);
    } else if f.ltype == Fixed32 {
      var n;
      ok, n := DecodeFixed32(s);
      v := Num(n);
    } else if f.ltype == Fixed64 {
      var n;
      ok, n := DecodeFixed64(s);
      v := Num(n);
    } else if f.ltype == Varint || f.ltype == UVarint || f.ltype == SVarint {
      ok, v := DecodeInteger(s, f);
    } else {
      ok, v := DecodeBlob(s, f);
    }
  }

  // ---- default values ----

  /** Memory of the right shape with nothing in it yet. */
  function Blank(fs: seq<Field>): (m: seq<Slot>)
    ensures Shaped(fs, m)
  {
    seq(|fs|, _ => Alias)
  }

  /** pb_field_set_to_default: what it stores for a field. */
  method DefaultOf(f: Field) returns (slot: Slot)
    requires WfField(f)
    ensures slot == DefaultSlot(f)
    decreases f
  {
    if f.htype == Repeated {
      // The array becomes empty; what its memory holds is left open.
      return if f.sizeOffset == 0 then Array(Unspecified(f.arraySize)) else Array([]);
    }
    if f.htype == Oneof {
      return Union(0, Stale);
    }
    var v;
    if f.ltype == Submessage {
      var sub := new Struct(f.sub, Blank(f.sub));
      SetToDefaults(f.sub, sub);
      v := Msg(ContentsOf(f.sub, sub.cells));
    } else if f.def.Some? {
      v := f.def.value;
    } else {
      v := ZeroValue(f);
    }
    slot := if f.htype == Optional && f.sizeOffset != 0 then Opt(false, v) else Plain(v);
  }

  /** The fields before i hold their defaults. */
  ghost predicate DefaultsBefore(fs: seq<Field>, i: nat, m: seq<Slot>)
    requires i <= |fs| == |m|
  {
    forall k :: 0 <= k < i && SlotOf(fs, k) == k ==> m[k] == DefaultSlot(fs[k])
  }

  lemma OneofDefault(f: Field)
    requires f.htype == Oneof
    ensures DefaultSlot(f) == Union(0, Stale)
  {
  }

  lemma DefaultsStep(fs: seq<Field>, i: nat, m: seq<Slot>)
    requires i < |fs| == |m| && Shaped(fs, m) && DefaultsBefore(fs, i, m)
    ensures DefaultsBefore(fs, i + 1, m[SlotOf(fs, i) := DefaultSlot(fs[i])])
    ensures Shaped(fs, m[SlotOf(fs, i) := DefaultSlot(fs[i])])
  {
    hide DefaultSlot, SlotOf, Shaped;
    var k0, after := SlotOf(fs, i), m[SlotOf(fs, i) := DefaultSlot(fs[i])];
    StillShaped(fs, m, i, DefaultSlot(fs[i]));
    SlotOfIsFirst(fs, i);
    if k0 != i {
      OneofDefault(fs[i]);
      OneofDefault(fs[k0]);
    }
    forall k | 0 <= k < i + 1 && SlotOf(fs, k) == k
      ensures after[k] == DefaultSlot(fs[k])
    {
    }
  }

  lemma AllDefaults(fs: seq<Field>, m: seq<Slot>)
    requires Shaped(fs, m) && DefaultsBefore(fs, |fs|, m)
    ensures m == DefaultMsg(fs, 0)
  {
    hide DefaultSlot, SlotOf, DefaultMsg;
    forall k | 0 <= k < |fs|
      ensures m[k] == DefaultMsg(fs, 0)[k]
    {
      DefaultMsgAt(fs, 0, k);
    }
  }

  /** pb_message_set_to_defaults. */
  method SetToDefaults(fs: seq<Field>, dest: Struct)
    requires WfDesc(fs) && HasShape(fs, dest.cells)
    modifies dest
    ensures dest.Holds(fs, DefaultMsg(fs, 0))
    decreases fs
  {
    hide WfDesc, HasShape, ContentsOf, DefaultsBefore, DefaultSlot, Shaped;
    hide DataAddress, SizeAddress, SlotOf, RequiredBefore;
    var iter := new FieldIter(fs);
    var any := iter.Begin();
    if !any {
      NothingToDefault(fs, dest.cells);
      return;  // no fields to set
    }
    StartDefaults(fs, ContentsOf(fs, dest.cells));
    while true
      invariant iter.Coherent() && iter.fields == fs && iter.pos < |fs|
      invariant HasShape(fs, dest.cells)
      invariant DefaultsBefore(fs, iter.pos, ContentsOf(fs, dest.cells))
      decreases |fs| - iter.pos
    {
      ghost var i := iter.pos;
      WfDescField(fs, i);
      var slot := DefaultOf(fs[iter.pos]);
      Stored(fs, dest.cells, i, slot);
      DefaultsStep(fs, i, ContentsOf(fs, dest.cells));
      dest.cells := dest.cells[iter.pData := slot];
      if i + 1 == |fs| {
        AllDefaults(fs, ContentsOf(fs, dest.cells));
      }
      var more := iter.Next();
      if !more {
        break;
      }
    }
  }

  lemma StartDefaults(fs: seq<Field>, m: seq<Slot>)
    requires |m| == |fs|
    ensures DefaultsBefore(fs, 0, m)
  {
  }

  lemma NothingToDefault(fs: seq<Field>, cells: Memory)
    requires fs == []
    ensures HasShape(fs, cells) && ContentsOf(fs, cells) == DefaultMsg(fs, 0)
  {
  }

  // ---- fields and messages ----

  /** The decoder of a data item, PB_DECODERS; it stores the result over cur. */
  method DecodeValue(s: IStream, f: Field, cur: Value) returns (ok: bool, v: Value)
    requires s.Valid() && WfField(f)
    modifies s
    ensures Advanced(s)
    ensures ok == DecValue(f, cur, old(s.Rest())).Some?
    ensures ok ==> v == DecValue(f, cur, old(s.Rest())).value.0 && Consumed(s, DecValue(f, cur, old(s.Rest())).value.1)
    decreases s.bytesLeft, 1
  {
    hide Decoding.DecScalar, DecLoop, WfDesc;
    if f.ltype == Submessage {
      ok, v := DecodeSubmessage(s, f, cur);
    } else {
      ok, v := DecodeScalar(s, f);
    }
  }

  /** pb_dec_submessage: array elements are initialised, other submessages are merged into what
      is there. */
  method DecodeSubmessage(s: IStream, f: Field, cur: Value) returns (ok: bool, v: Value)
    requires s.Valid() && WfField(f) && f.ltype == Submessage
    modifies s
    ensures Advanced(s)
    ensures ok == DecValue(f, cur, old(s.Rest())).Some?
    ensures ok ==> v == DecValue(f, cur, old(s.Rest())).value.0 && Consumed(s, DecValue(f, cur, old(s.Rest())).value.1)
    decreases s.bytesLeft, 0
  {
    hide DecValue, DecChunk, NoInit, WfDesc, Shaped, SubBase, ContentsOf;
    SubmessageAt(f, cur, s.Rest());
    v := Stale;
    var sub;
    ok, sub := MakeStringSubstream(s);
    if !ok {
      return;
    }
    ghost var (chunk, rest) := DecChunk(old(s.Rest())).value;
    DefaultIsShaped(f.sub);
    BaseIsShaped(f, cur);
    var dest := new Struct(f.sub, SubBase(f, cur));
    var status;
    if f.htype == Repeated {
      status := Decode(sub, f.sub, dest);
    } else {
      status := DecodeNoInit(sub, f.sub, dest, SubBase(f, cur));
    }
    ok := CloseStringSubstream(s, sub, rest);
    return status, Msg(ContentsOf(f.sub, dest.cells));
  }

  /** What decoding a submessage amounts to. */
  lemma SubmessageAt(f: Field, cur: Value, s: bytes)
    requires f.ltype == Submessage
    ensures DecChunk(s).None? ==> DecValue(f, cur, s).None?
    ensures DecChunk(s).Some? ==>
              var (chunk, rest) := DecChunk(s).value;
              var r := NoInit(f.sub, SubBase(f, cur), chunk);
              DecValue(f, cur, s) == if r.Some? then Some((Msg(r.value.0), rest)) else None
  {
    hide DecChunk, NoInit, SubBase;
  }

  lemma BaseIsShaped(f: Field, cur: Value)
    ensures Shaped(f.sub, SubBase(f, cur))
    ensures f.htype == Repeated ==> SubBase(f, cur) == DefaultMsg(f.sub, 0)
  {
    DefaultIsShaped(f.sub);
  }

  /** Stores element number at of an array. */
  function StoreItem(f: Field, slot: Slot, at: nat, v: Value): Slot
    requires f.FixedCount() ==> at < f.arraySize
  {
    if f.FixedCount() then Array(FixedItems(f, slot)[at := v]) else Array(slot.Items() + [v])
  }

  lemma AppendItem(f: Field, slot: Slot, count: nat, vs: seq<Value>, v: Value, rest: bytes)
    requires f.FixedCount() ==> count + |vs| < f.arraySize
    ensures Append(f, slot, count, vs + [v], rest).0 == StoreItem(f, Append(f, slot, count, vs, rest).0, count + |vs|, v)
  {
    if f.FixedCount() {
      var items := FixedItems(f, slot);
      assert Overwrite(items, count, vs)[count + |vs| := v] == Overwrite(items, count, vs + [v]);
    } else {
      assert slot.Items() + vs + [v] == slot.Items() + (vs + [v]);
    }
  }

  /** Elements decoded so far, followed by those of the rest of a run. */
  function Prepend(vs: seq<Value>, r: Option<seq<Value>>): Option<seq<Value>> {
    if r.Some? then Some(vs + r.value) else None
  }

  lemma PackedNext(f: Field, room: nat, s: bytes, vs: seq<Value>)
    requires s != [] && room > 0
    ensures DecScalar(f, s).None? ==> Prepend(vs, DecPacked(f, room, s)).None?
    ensures DecScalar(f, s).Some? ==>
              var (v, rest) := DecScalar(f, s).value;
              Prepend(vs, DecPacked(f, room, s)) == Prepend(vs + [v], DecPacked(f, room - 1, rest))
  {
    hide Decoding.DecScalar;
    if DecScalar(f, s).Some? {
      var (v, rest) := DecScalar(f, s).value;
      var r := DecPacked(f, room - 1, rest);
      if r.Some? {
        assert vs + ([v] + r.value) == vs + [v] + r.value;
      }
    }
  }

  lemma PackedEnds(f: Field, room: nat, s: bytes, vs: seq<Value>)
    ensures s == [] ==> Prepend(vs, DecPacked(f, room, s)) == Some(vs)
    ensures s != [] && room == 0 ==> Prepend(vs, DecPacked(f, room, s)).None?
    ensures Prepend([], DecPacked(f, room, s)) == DecPacked(f, room, s)
  {
    assert vs + [] == vs;
    if DecPacked(f, room, s).Some? {
      assert [] + DecPacked(f, room, s).value == DecPacked(f, room, s).value;
    }
  }

  /** The loop over the elements of a packed run, into the array at pData. */
  method DecodePackedItems(sub: IStream, f: Field, dest: Struct, pData: int, count: nat) returns (status: bool, size: nat)
    requires sub.Valid() && f.htype == Repeated && f.ltype.Packable()
    requires pData in dest.cells && (f.FixedCount() ==> count <= f.arraySize)
    modifies sub, dest
    ensures Advanced(sub) && dest.cells.Keys == old(dest.cells.Keys)
    ensures var slot := old(dest.cells[pData]);
            var have := if f.FixedCount() then count else |slot.Items()|;
            var r := DecPacked(f, if have < f.arraySize then f.arraySize - have else 0, old(sub.Rest()));
            && (status && sub.bytesLeft == 0 <==> r.Some?)
            && (r.Some? ==>
                  && size == have + |r.value| && Consumed(sub, [])
                  && dest.cells == old(dest.cells)[pData := Append(f, slot, count, r.value, []).0])
  {
    hide DecPacked, Append, AsArray, FixedItems, Decoding.DecScalar;
    status := true;
    ghost var slot0, chunk := dest.cells[pData], sub.Rest();
    size := if f.FixedCount() then count else |dest.cells[pData].Items()|;
    ghost var room := if size < f.arraySize then f.arraySize - size else 0;
    ghost var vs: seq<Value> := [];
    // Only names the memory of the array.
    dest.cells := dest.cells[pData := AsArray(f, dest.cells[pData])];
    AppendNothing(f, slot0, count, []);
    PackedEnds(f, room, chunk, []);
    while sub.bytesLeft > 0 && size < f.arraySize
      invariant sub.Valid() && sub.state + sub.bytesLeft == old(sub.state + sub.bytesLeft)
      invariant sub.bytesLeft <= old(sub.bytesLeft)
      invariant |vs| <= room && size == (if f.FixedCount() then count else |slot0.Items()|) + |vs|
      invariant DecPacked(f, room, chunk) == Prepend(vs, DecPacked(f, room - |vs|, sub.Rest()))
      invariant dest.cells == old(dest.cells)[pData := Append(f, slot0, count, vs, []).0]
      decreases sub.bytesLeft
    {
      PackedNext(f, room - |vs|, sub.Rest(), vs);
      var v;
      status, v := DecodeScalar(sub, f);
      if !status {
        return;
      }
      AppendItem(f, slot0, count, vs, v, []);
      dest.cells := dest.cells[pData := StoreItem(f, dest.cells[pData], size, v)];
      size := size + 1;
      vs := vs + [v];
    }
    PackedEnds(f, room - |vs|, sub.Rest(), vs);
  }

  /** The packed branch of decode_static_field. */
  method DecodePackedArray(s: IStream, f: Field, dest: Struct, pData: int, count: nat) returns (ok: bool, count': nat)
    requires s.Valid() && f.htype == Repeated && f.ltype.Packable()
    requires pData in dest.cells && (f.FixedCount() ==> count <= f.arraySize)
    modifies s, dest
    ensures Advanced(s) && dest.cells.Keys == old(dest.cells.Keys)
    ensures ok == DecStatic(f, WT_STRING, old(dest.cells[pData]), count, old(s.Rest())).Some?
    ensures ok ==> var (slot, c, rest) := DecStatic(f, WT_STRING, old(dest.cells[pData]), count, old(s.Rest())).value;
                   dest.cells == old(dest.cells)[pData := slot] && count' == c && Consumed(s, rest)
  {
    hide DecPacked, DecChunk, Append;
    count' := count;
    var sub;
    ghost var all, slot0 := s.Rest(), dest.cells[pData];
    ok, sub := MakeStringSubstream(s);
    if !ok {
      return;
    }
    ghost var (chunk, rest) := DecChunk(all).value;
    var status, size := DecodePackedItems(sub, f, dest, pData, count);
    if sub.bytesLeft != 0 {
      return false, count;
    }
    ok := CloseStringSubstream(s, sub, rest);
    if status {
      var have := if f.FixedCount() then count else |slot0.Items()|;
      ghost var vs := DecPacked(f, if have < f.arraySize then f.arraySize - have else 0, chunk).value;
      AppendCount(f, slot0, count, vs, rest);
    }
    return status, if f.FixedCount() then size else count;
  }

  function AsArray(f: Field, slot: Slot): Slot {
    Array(if f.FixedCount() then FixedItems(f, slot) else slot.Items())
  }

  lemma AppendNothing(f: Field, slot: Slot, count: nat, rest: bytes)
    requires f.FixedCount() ==> count <= f.arraySize
    ensures Append(f, slot, count, [], rest).0 == AsArray(f, slot)
  {
    if f.FixedCount() {
      assert Overwrite(FixedItems(f, slot), count, []) == FixedItems(f, slot);
    } else {
      assert slot.Items() + [] == slot.Items();
    }
  }

  lemma AppendCount(f: Field, slot: Slot, count: nat, vs: seq<Value>, rest: bytes)
    requires f.FixedCount() ==> count + |vs| <= f.arraySize
    ensures Append(f, slot, count, vs, rest).1 == if f.FixedCount() then count + |vs| else count
    ensures Append(f, slot, count, vs, rest).2 == rest
    ensures Append(f, slot, count, vs, rest).0 == Append(f, slot, count, vs, []).0
  {
  }

  /** decode_static_field: decodes one record of field f into the memory at pData; count is the
      number of elements received when f is the current fixed-count field. */
  method DecodeStaticField(s: IStream, wireType: nat, f: Field, dest: Struct, pData: int, count: nat)
    returns (ok: bool, count': nat)
    requires s.Valid() && WfField(f)
    requires pData in dest.cells && (f.FixedCount() ==> count <= f.arraySize)
    modifies s, dest
    ensures Advanced(s) && dest.cells.Keys == old(dest.cells.Keys)
    ensures ok == DecStatic(f, wireType, old(dest.cells[pData]), count, old(s.Rest())).Some?
    ensures ok ==> var (slot, c, rest) := DecStatic(f, wireType, old(dest.cells[pData]), count, old(s.Rest())).value;
                   dest.cells == old(dest.cells)[pData := slot] && count' == c && Consumed(s, rest)
    decreases s.bytesLeft, 2
  {
    hide DecValue, DecPacked, DecChunk, WfDesc;
    count' := count;
    var v;
    var cur := dest.cells[pData].Payload();
    match f.htype {
      case Required =>
        ok, v := DecodeValue(s, f, cur);
        dest.cells := dest.cells[pData := Plain(v)];
      case Optional =>
        ok, v := DecodeValue(s, f, cur);
        dest.cells := dest.cells[pData := if f.sizeOffset != 0 then Opt(true, v) else Plain(v)];
      case Repeated =>
        if wireType == WT_STRING && f.ltype.Packable() {
          ok, count' := DecodePackedArray(s, f, dest, pData, count);
        } else {
          var slot := dest.cells[pData];
          var size := if f.sizeOffset == 0 then count else |slot.Items()|;
          if size >= f.arraySize {
            return false, count;
          }
          AppendNothing(f, slot, count, []);
          ok, v := DecodeValue(s, f, Stale);
          AppendItem(f, slot, count, [], v, []);
          AppendCount(f, slot, count, [v], s.Rest());
          assert [] + [v] == [v];
          dest.cells := dest.cells[pData := StoreItem(f, AsArray(f, slot), size, v)];
          count' := if f.sizeOffset == 0 then size + 1 else count;
        }
      case Oneof =>
        if f.ltype == Submessage && dest.cells[pData].Which() != f.tag {
          // Another member used the memory, so nothing of it is merged.
          cur := Stale;
        }
        ok, v := DecodeValue(s, f, cur);
        dest.cells := dest.cells[pData := Union(f.tag, v)];
    }
  }

  /** What the variables of the field loop stand for. */
  ghost predicate Tracks(fs: seq<Field>, st: LoopState, fixedField: Option<nat>, fixedSize: nat, words: seq<nat>) {
    && st.fixedField == fixedField && st.fixedCount == fixedSize
    && (fixedField.Some? ==> fixedField.value < |fs| && fixedSize <= fs[fixedField.value].arraySize)
    && Bitmap.Holds(words, st.seen)
    && (fs != [] ==> forall k :: k in st.seen ==> k < RequiredBefore(fs, |fs|) && k < MAX_REQUIRED_FIELDS)
  }

  /** The bookkeeping of the field loop before a record of the field the iterator is at: which
      fixed-count field is being received, and which required fields were seen. */
  method EnterKnownField(fs: seq<Field>, iter: FieldIter, fixedField_: Option<nat>, fixedSize_: nat,
                         fieldsSeen: array<nat>, ghost st: LoopState)
    returns (ok: bool, fixedField: Option<nat>, fixedSize: nat, ghost st': LoopState)
    requires WfDesc(fs) && iter.Coherent() && iter.fields == fs && iter.pos < |fs|
    requires Tracks(fs, st, fixedField_, fixedSize_, fieldsSeen[..])
    requires iter.pSize == FixedCounter ==> fixedField_ == Some(iter.pos)
    modifies iter`pSize, fieldsSeen
    ensures iter.Coherent()
    ensures ok == EnterField(fs, iter.pos, st).Some?
    ensures ok ==>
              && EnterField(fs, iter.pos, st) == Some(st')
              && Tracks(fs, st', fixedField, fixedSize, fieldsSeen[..])
              && (iter.pSize == FixedCounter <==> fs[iter.pos].FixedCount())
              && (fs[iter.pos].FixedCount() ==> fixedField == Some(iter.pos))
  {
    hide WfDesc, Bitmap.Holds;
    var f := fs[iter.pos];
    WfDescField(fs, iter.pos);
    if f.htype == Repeated {
      PlainSizePointer(fs, iter.pos);
    }
    ok, fixedField, fixedSize, st' := true, fixedField_, fixedSize_, st;
    if f.htype == Repeated && iter.pSize == At(iter.pData) {
      if fixedField != Some(iter.pos) {
        // Switching fields is an error while the last one still misses elements.
        if fixedField.Some? && fixedSize != fs[fixedField.value].arraySize {
          ok := false;
          return;
        }
        fixedField := Some(iter.pos);
        fixedSize := 0;
      }
      iter.pSize := FixedCounter;
    }
    ghost var seen := st.seen;
    if f.htype == Required && iter.requiredFieldIndex < MAX_REQUIRED_FIELDS {
      RequiredCounts(fs, iter.pos, |fs|);
      Bitmap.Mark(fieldsSeen, iter.requiredFieldIndex, st.seen);
      seen := seen + {iter.requiredFieldIndex};
    }
    st' := LoopState(st.slots, seen, fixedField, fixedSize);
  }

  /** A record of the field the iterator is at: the bookkeeping, and decode_field. */
  method DecodeKnownField(s: IStream, fs: seq<Field>, iter: FieldIter, dest: Struct, wireType: nat,
                          fixedField_: Option<nat>, fixedSize_: nat, fieldsSeen: array<nat>, ghost st: LoopState)
    returns (ok: bool, fixedField: Option<nat>, fixedSize: nat, ghost st': LoopState)
    requires s.Valid() && WfDesc(fs) && iter.Coherent() && iter.fields == fs && iter.pos < |fs|
    requires |st.slots| == |fs| && dest.Holds(fs, st.slots)
    requires Tracks(fs, st, fixedField_, fixedSize_, fieldsSeen[..])
    requires iter.pSize == FixedCounter ==> fixedField_ == Some(iter.pos)
    modifies s, dest, iter`pSize, fieldsSeen
    ensures Advanced(s) && iter.Coherent() && HasShape(fs, dest.cells)
    ensures ok == DecField(fs, iter.pos, st, wireType, old(s.Rest())).Some?
    ensures ok ==>
              && |st'.slots| == |fs| && dest.Holds(fs, st'.slots) && s.Valid()
              && DecField(fs, iter.pos, st, wireType, old(s.Rest())) == Some((st', s.Rest()))
              && Consumed(s, s.Rest())
              && Tracks(fs, st', fixedField, fixedSize, fieldsSeen[..])
              && (iter.pSize == FixedCounter ==> fixedField == Some(iter.pos))
    decreases s.bytesLeft, 3
  {
    hide WfDesc, DecStatic, ContentsOf, Bitmap.Holds, DataAddress, SizeAddress, SlotOf, RequiredBefore;
    var f := fs[iter.pos];
    WfDescField(fs, iter.pos);
    ok, fixedField, fixedSize, st' := EnterKnownField(fs, iter, fixedField_, fixedSize_, fieldsSeen, st);
    if !ok {
      return;
    }
    Loaded(fs, dest.cells, iter.pos);
    ghost var cells, s0, st1 := dest.cells, s.Rest(), st';
    var size;
    ok, size := DecodeStaticField(s, wireType, f, dest, iter.pData, fixedSize);
    if ok {
      ghost var slot := DecStatic(f, wireType, cells[iter.pData], fixedSize, s0).value.0;
      Stored(fs, cells, iter.pos, slot);
      st' := st1.(slots := st.slots[SlotOf(fs, iter.pos) := slot], fixedCount := size);
      StaticCount(f, wireType, cells[iter.pData], fixedSize, s0);
      fixedSize := size;
    }
  }

  /** A field without a size slot has its size pointer at its data. */
  lemma PlainSizePointer(fs: seq<Field>, i: nat)
    requires WfDesc(fs) && i < |fs| && fs[i].htype == Repeated
    ensures SizeAddress(fs, i) == DataAddress(fs, i) <==> fs[i].FixedCount()
  {
  }

  lemma StaticCount(f: Field, wireType: nat, slot: Slot, count: nat, s: bytes)
    requires DecStatic(f, wireType, slot, count, s).Some?
    ensures !f.FixedCount() ==> DecStatic(f, wireType, slot, count, s).value.1 == count
    ensures count <= f.arraySize ==> DecStatic(f, wireType, slot, count, s).value.1 <= f.arraySize
  {
    hide DecValue, DecPacked, DecChunk;
  }

  /** The body of the field loop, after the tag. */
  method DecodeRecord(s: IStream, fs: seq<Field>, iter: FieldIter, dest: Struct, tag: nat, wireType: nat,
                      fixedField_: Option<nat>, fixedSize_: nat, fieldsSeen: array<nat>, ghost st: LoopState)
    returns (ok: bool, fixedField: Option<nat>, fixedSize: nat, ghost st': LoopState)
    requires s.Valid() && WfDesc(fs) && iter.Coherent() && iter.fields == fs
    requires |st.slots| == |fs| && dest.Holds(fs, st.slots)
    requires Tracks(fs, st, fixedField_, fixedSize_, fieldsSeen[..])
    requires iter.pos < |fs| && iter.pSize == FixedCounter ==> fixedField_ == Some(iter.pos)
    modifies s, dest, iter, fieldsSeen
    ensures Advanced(s) && iter.Coherent() && HasShape(fs, dest.cells)
    ensures ok == DecRecord(fs, st, tag, wireType, old(s.Rest())).Some?
    ensures ok ==>
              && |st'.slots| == |fs| && dest.Holds(fs, st'.slots)
              && DecRecord(fs, st, tag, wireType, old(s.Rest())) == Some((st', s.Rest()))
              && Consumed(s, s.Rest())
              && Tracks(fs, st', fixedField, fixedSize, fieldsSeen[..])
              && (iter.pos < |fs| && iter.pSize == FixedCounter ==> fixedField == Some(iter.pos))
    decreases s.bytesLeft, 4
  {
    hide WfDesc, DecField, SkipField, ContentsOf, Dec32, Bitmap.Holds;
    fixedField, fixedSize, st' := fixedField_, fixedSize_, st;
    var found := iter.Find(tag);
    if !found {
      // a field this descriptor does not have
      ok := ReadPastField(s, wireType);
      return;
    }
    if iter.pos < |fs| {
      TagIsFirst(fs, iter.pos);
      ok, fixedField, fixedSize, st' :=
        DecodeKnownField(s, fs, iter, dest, wireType, fixedField_, fixedSize_, fieldsSeen, st);
    } else {
      // The terminator of an empty message type looks like a required bool.
      Bitmap.Mark(fieldsSeen, 0, st.seen);
      st' := st.(seen := st.seen + {0});
      var b;
      ok, b := DecodeVarint32(s);
    }
  }

  lemma TagIsFirst(fs: seq<Field>, i: nat)
    requires WfDesc(fs) && i < |fs|
    ensures FindTag(fs, fs[i].tag, 0) == i
  {
  }

  /** The checks after the field loop: the last fixed-count field is complete, and all required
      fields were seen. */
  method CheckComplete(fs: seq<Field>, iter: FieldIter, fixedField: Option<nat>, fixedSize: nat, fieldsSeen: array<nat>,
                       ghost st: LoopState)
    returns (ok: bool)
    requires iter.Coherent() && iter.fields == fs && Tracks(fs, st, fixedField, fixedSize, fieldsSeen[..])
    modifies iter
    ensures ok <==> FixedComplete(fs, st) && RequiredSeen(fs, st.seen)
  {
    hide Bitmap.Holds;
    if fixedField.Some? && fixedSize != fs[fixedField.value].arraySize {
      return false;
    }
    // Walk on to the last field, whose index is known to the iterator.
    var requiredCount, lastRequired;
    while true
      invariant iter.Coherent() && iter.fields == fs
      decreases |fs| - iter.pos
    {
      requiredCount := iter.requiredFieldIndex;
      lastRequired := iter.pos < |fs| && fs[iter.pos].htype == Required;
      var more := iter.Next();
      if !more {
        break;
      }
    }
    // The index counts the fields before the last one only.
    if lastRequired {
      requiredCount := requiredCount + 1;
    }
    assert requiredCount == RequiredBefore(fs, |fs|);
    if requiredCount > MAX_REQUIRED_FIELDS {
      requiredCount := MAX_REQUIRED_FIELDS;
    }
    ok := Bitmap.AllPresent(fieldsSeen, requiredCount, st.seen);
  }

  /** pb_decode_noinit: decodes over the message in dest. */
  method DecodeNoInit(s: IStream, fs: seq<Field>, dest: Struct, ghost m: seq<Slot>) returns (ok: bool)
    requires s.Valid() && WfDesc(fs) && |m| == |fs| && dest.Holds(fs, m)
    modifies s, dest
    ensures Advanced(s) && HasShape(fs, dest.cells)
    ensures ok == NoInit(fs, m, old(s.Rest())).Some?
    ensures ok ==> var (r, rest) := NoInit(fs, m, old(s.Rest())).value;
                   dest.Holds(fs, r) && Consumed(s, rest)
    decreases s.bytesLeft, 5
  {
    hide WfDesc, DecTag, DecRecord, ContentsOf, Bitmap.Holds, FixedComplete, RequiredSeen;
    hide DataAddress, SizeAddress, SlotOf, Shaped;
    var fieldsSeen := new nat[2](_ => 0);
    var fixedField, fixedSize := None, 0;
    var iter := new FieldIter(fs);
    var any := iter.Begin();
    ghost var st, all := StartState(m), s.Rest();
    NothingSeen(fieldsSeen[..]);
    while s.bytesLeft > 0
      invariant s.Valid() && s.state + s.bytesLeft == old(s.state + s.bytesLeft) && s.bytesLeft <= old(s.bytesLeft)
      invariant iter.Coherent() && iter.fields == fs && |st.slots| == |fs| && dest.Holds(fs, st.slots)
      invariant Tracks(fs, st, fixedField, fixedSize, fieldsSeen[..])
      invariant iter.pos < |fs| && iter.pSize == FixedCounter ==> fixedField == Some(iter.pos)
      invariant DecLoop(fs, StartState(m), all) == DecLoop(fs, st, s.Rest())
      decreases s.bytesLeft
    {
      var tag, wireType, eof;
      ok, wireType, tag, eof := DecodeTag(s);
      if !ok {
        if eof {
          break;
        }
        return;
      }
      ok, fixedField, fixedSize, st :=
        DecodeRecord(s, fs, iter, dest, tag, wireType, fixedField, fixedSize, fieldsSeen, st);
      if !ok {
        return;
      }
    }
    assert DecLoop(fs, StartState(m), all) == Some((st, s.Rest()));
    ok := CheckComplete(fs, iter, fixedField, fixedSize, fieldsSeen, st);
  }

  lemma NothingSeen(words: seq<nat>)
    requires words == [0, 0]
    ensures Bitmap.Holds(words, {})
  {
    hide Bitmap.BitAt;
    Pow2Values();
    forall k | 0 <= k < MAX_REQUIRED_FIELDS
      ensures !Bitmap.BitAt(words[k / 32], k % 32)
    {
      Bitmap.BitOfZero(k % 32);
    }
  }

  /** pb_decode. */
  method Decode(s: IStream, fs: seq<Field>, dest: Struct) returns (ok: bool)
    requires s.Valid() && WfDesc(fs) && HasShape(fs, dest.cells)
    modifies s, dest
    ensures Advanced(s) && HasShape(fs, dest.cells)
    ensures ok == Decoding.Decode(fs, old(s.Rest())).Some?
    ensures ok ==> var (r, rest) := Decoding.Decode(fs, old(s.Rest())).value;
                   dest.Holds(fs, r) && Consumed(s, rest)
    decreases s.bytesLeft, 6
  {
    hide NoInit, WfDesc, HasShape, ContentsOf;
    SetToDefaults(fs, dest);
    ok := DecodeNoInit(s, fs, dest, DefaultMsg(fs, 0));
  }

  /** pb_decode_delimited. */
  method DecodeDelimited(s: IStream, fs: seq<Field>, dest: Struct) returns (ok: bool)
    requires s.Valid() && WfDesc(fs) && HasShape(fs, dest.cells)
    modifies s, dest
    ensures Advanced(s) && HasShape(fs, dest.cells)
    ensures ok == Decoding.DecodeDelimited(fs, old(s.Rest())).Some?
    ensures ok ==> var (r, rest) := Decoding.DecodeDelimited(fs, old(s.Rest())).value;
                   dest.Holds(fs, r) && Consumed(s, rest)
  {
    hide DecChunk, Decoding.Decode, WfDesc, HasShape, ContentsOf;
    var sub;
    ok, sub := MakeStringSubstream(s);
    if !ok {
      return;
    }
    ghost var rest := DecChunk(old(s.Rest())).value.1;
    var status := Decode(sub, fs, dest);
    ok := CloseStringSubstream(s, sub, rest);
    return status;
  }

  /** pb_decode_delimited_noinit. */
  method DecodeDelimitedNoInit(s: IStream, fs: seq<Field>, dest: Struct, ghost m: seq<Slot>) returns (ok: bool)
    requires s.Valid() && WfDesc(fs) && |m| == |fs| && dest.Holds(fs, m)
    modifies s, dest
    ensures Advanced(s) && HasShape(fs, dest.cells)
    ensures var chunk := DecChunk(old(s.Rest()));
            && ok == (chunk.Some? && NoInit(fs, m, chunk.value.0).Some?)
            && (ok ==> dest.Holds(fs, NoInit(fs, m, chunk.value.0).value.0) && Consumed(s, chunk.value.1))
  {
    hide DecChunk, NoInit, WfDesc, ContentsOf;
    var sub;
    ok, sub := MakeStringSubstream(s);
    if !ok {
      return;
    }
    ghost var rest := DecChunk(old(s.Rest())).value.1;
    var status := DecodeNoInit(sub, fs, dest, m);
    ok := CloseStringSubstream(s, sub, rest);
    return status;
  }

  /** pb_decode_nullterminated: pb_decode already stops at a zero tag. */
  method DecodeNullTerminated(s: IStream, fs: seq<Field>, dest: Struct) returns (ok: bool)
    requires s.Valid() && WfDesc(fs) && HasShape(fs, dest.cells)
    modifies s, dest
    ensures Advanced(s) && HasShape(fs, dest.cells)
    ensures ok == Decoding.Decode(fs, old(s.Rest())).Some?
    ensures ok ==> var (r, rest) := Decoding.Decode(fs, old(s.Rest())).value;
                   dest.Holds(fs, r) && Consumed(s, rest)
  {
    hide Decoding.Decode, WfDesc, HasShape, ContentsOf;
    ok := Decode(s, fs, dest);
  }
}
