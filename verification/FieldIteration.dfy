/** The memory layout of message structs and the cyclic iterator over their fields. */
module FieldIteration {
  import opened Bytes
  import opened Descriptor

  /** The offset from one field to the end of its memory. */
  function FieldSize(f: Field): (n: nat)
    ensures FieldOk(f) ==> n > 0
  {
    if f.htype == Repeated then f.dataSize * f.arraySize else f.dataSize
  }

  /** Where the data of field i begins: the descriptors hold distances, so this is a walk from
      the first field. */
  function DataAddress(fs: seq<Field>, i: nat): nat
    requires i < |fs|
  {
    if i == 0 then fs[0].dataOffset
    else if InUnion(fs, i) then DataAddress(fs, i - 1)
    else DataAddress(fs, i - 1) + FieldSize(fs[i - 1]) + fs[i].dataOffset
  }

  /** Where the has_ flag, count or which_ member of field i is; the data address if there is none. */
  function SizeAddress(fs: seq<Field>, i: nat): int
    requires i < |fs|
  {
    if InUnion(fs, i) then SizeAddress(fs, i - 1) else DataAddress(fs, i) + fs[i].sizeOffset
  }

  lemma {:induction false} AddressesAscend(fs: seq<Field>, i: nat, j: nat)
    requires WfDesc(fs) && i <= j < |fs|
    ensures DataAddress(fs, i) <= DataAddress(fs, j)
    ensures SlotOf(fs, i) <= SlotOf(fs, j)
    ensures DataAddress(fs, i) == DataAddress(fs, j) <==> SlotOf(fs, i) == SlotOf(fs, j)
    decreases j - i
  {
    hide WfDesc, DataAddress, SlotOf;
    if i < j {
      AddressesAscend(fs, i, j - 1);
      WfDescField(fs, j - 1);
      AddressStep(fs, j);
      SlotStep(fs, j);
    }
  }

  lemma {:induction false} AddressStep(fs: seq<Field>, j: nat)
    requires 0 < j < |fs|
    ensures DataAddress(fs, j) ==
            if InUnion(fs, j) then DataAddress(fs, j - 1)
            else DataAddress(fs, j - 1) + FieldSize(fs[j - 1]) + fs[j].dataOffset
  {
  }

  lemma {:induction false} SlotStep(fs: seq<Field>, j: nat)
    requires 0 < j < |fs|
    ensures SlotOf(fs, j) == if InUnion(fs, j) then SlotOf(fs, j - 1) else j
  {
  }

  /** Two fields share memory exactly when they are members of the same union. */
  lemma SharedMemory(fs: seq<Field>, i: nat, j: nat)
    requires WfDesc(fs) && i < |fs| && j < |fs|
    ensures DataAddress(fs, i) == DataAddress(fs, j) <==> SlotOf(fs, i) == SlotOf(fs, j)
  {
    if i <= j {
      AddressesAscend(fs, i, j);
    } else {
      AddressesAscend(fs, j, i);
    }
  }

  // ---- extents ----

  /** The bytes of a field's data: all elements of an array. */
  function Extent(f: Field): nat {
    f.dataSize * if f.htype == Repeated then f.arraySize else 1
  }

  /** The last member of the union of field i; i itself outside unions. */
  function LastMember(fs: seq<Field>, i: nat): (l: nat)
    requires i < |fs|
    ensures i <= l < |fs|
    decreases |fs| - i
  {
    if i + 1 < |fs| && InUnion(fs, i + 1) then LastMember(fs, i + 1) else i
  }

  lemma {:induction false} LastMemberShares(fs: seq<Field>, i: nat)
    requires WfDesc(fs) && i < |fs|
    ensures DataAddress(fs, LastMember(fs, i)) == DataAddress(fs, i)
    ensures LastMember(fs, i) + 1 < |fs| ==> !InUnion(fs, LastMember(fs, i) + 1)
    ensures forall j :: i < j <= LastMember(fs, i) ==> InUnion(fs, j)
    decreases |fs| - i
  {
    hide WfDesc, DataAddress;
    if i + 1 < |fs| && InUnion(fs, i + 1) {
      LastMemberShares(fs, i + 1);
      AddressStep(fs, i + 1);
    }
  }

  lemma {:induction false} LastIsInSlot(fs: seq<Field>, i: nat)
    requires i < |fs|
    ensures SlotOf(fs, LastMember(fs, i)) == SlotOf(fs, i)
    decreases |fs| - i
  {
    if i + 1 < |fs| && InUnion(fs, i + 1) {
      LastIsInSlot(fs, i + 1);
    }
  }

  /** Every member of a union but the last leaves room before the field behind the union; the
      distance to that field is counted from the end of the last member. */
  predicate UnionsFit(fs: seq<Field>) {
    forall i :: 0 <= i < |fs| && LastMember(fs, i) != i && LastMember(fs, i) + 1 < |fs| ==>
      Extent(fs[i]) <= Extent(fs[LastMember(fs, i)]) + fs[LastMember(fs, i) + 1].dataOffset
  }

  /** Fields do not overlap: the data of one, arrays with all their elements, ends before the data of
      every later field outside its union begins. */
  lemma FieldsAreDisjoint(fs: seq<Field>, i: nat, j: nat)
    requires WfDesc(fs) && UnionsFit(fs) && i < j < |fs| && SlotOf(fs, i) != SlotOf(fs, j)
    ensures DataAddress(fs, i) + Extent(fs[i]) <= DataAddress(fs, j)
  {
    hide WfDesc, DataAddress;
    var l := LastMember(fs, i);
    LastMemberShares(fs, i);
    SameSlotUpTo(fs, i, j);
    AddressStep(fs, l + 1);
    AddressesAscend(fs, l + 1, j);
    WfDescField(fs, l);
    ExtentIsSize(fs[l]);
  }

  /** A field in another slot lies behind the last member. */
  lemma {:induction false} SameSlotUpTo(fs: seq<Field>, i: nat, j: nat)
    requires i < j < |fs| && SlotOf(fs, i) != SlotOf(fs, j)
    ensures LastMember(fs, i) < j
    decreases |fs| - i
  {
    if i + 1 < |fs| && InUnion(fs, i + 1) {
      assert SlotOf(fs, i + 1) == SlotOf(fs, i);
      SameSlotUpTo(fs, i + 1, j);
    }
  }

  lemma ExtentIsSize(f: Field)
    ensures FieldSize(f) == Extent(f)
  {
  }

  /** Members of a union share one which_ member, at its distance from the first of them; every other
      field has its own has_ flag or counter, or none, at its distance from its own data. */
  lemma {:induction false} SizeOfSlot(fs: seq<Field>, i: nat)
    requires WfDesc(fs) && i < |fs|
    ensures SizeAddress(fs, i) == DataAddress(fs, i) + fs[SlotOf(fs, i)].sizeOffset
    ensures i > 0 && InUnion(fs, i) ==> SizeAddress(fs, i) == SizeAddress(fs, i - 1)
  {
    hide WfDesc;
    if InUnion(fs, i) {
      SizeOfSlot(fs, i - 1);
    }
  }

  /** A counter, three numbers of four bytes, and a fourth number behind them. */
  lemma ArrayThenNumber()
    ensures var numbers := Field(1, Varint, Repeated, 4, -4, 4, 3, [], None);
            var fs := [numbers, Field(2, Varint, Required, 0, 0, 4, 0, [], None)];
            DataAddress(fs, 0) == 4 && SizeAddress(fs, 0) == 0 && DataAddress(fs, 1) == 16
  {
  }

  /** Two unions, one behind the other, of members of 4 and 8 bytes, and of 4 bytes. */
  lemma TwoUnions()
    ensures var fs := [Field(1, Fixed32, Oneof, 8, -8, 4, 0, [], None),
                       Field(2, Fixed64, Oneof, SIZE_MAX, 0, 8, 0, [], None),
                       Field(3, Fixed32, Oneof, 4, -4, 4, 0, [], None)];
            && SlotOf(fs, 0) == SlotOf(fs, 1) == 0 && SlotOf(fs, 2) == 2
            && DataAddress(fs, 0) == DataAddress(fs, 1) == 8 && DataAddress(fs, 2) == 20
            && SizeAddress(fs, 0) == SizeAddress(fs, 1) == 0 && SizeAddress(fs, 2) == 16
  {
  }

  lemma SlotAddress(fs: seq<Field>, i: nat)
    requires WfDesc(fs) && i < |fs|
    ensures DataAddress(fs, SlotOf(fs, i)) == DataAddress(fs, i)
  {
    SlotOfIsFirst(fs, i);
    SharedMemory(fs, i, SlotOf(fs, i));
  }

  type Memory = map<int, Slot>

  /** Memory for every field of the descriptor. */
  ghost predicate HasShape(fs: seq<Field>, cells: Memory) {
    forall i :: 0 <= i < |fs| ==> DataAddress(fs, i) in cells
  }

  /** The message in a struct's memory. */
  function ContentsOf(fs: seq<Field>, cells: Memory): (m: seq<Slot>)
    requires HasShape(fs, cells)
    ensures Shaped(fs, m) && |m| == |fs|
  {
    seq(|fs|, i requires 0 <= i < |fs| && DataAddress(fs, i) in cells =>
      if SlotOf(fs, i) == i then cells[DataAddress(fs, i)] else Alias)
  }

  /** What the data pointer of field i reads. */
  lemma Loaded(fs: seq<Field>, cells: Memory, i: nat)
    requires WfDesc(fs) && i < |fs| && HasShape(fs, cells)
    ensures DataAddress(fs, i) in cells && cells[DataAddress(fs, i)] == ContentsOf(fs, cells)[SlotOf(fs, i)]
  {
    SlotAddress(fs, i);
    SlotOfIsFirst(fs, i);
  }

  /** Storing through the data pointer of field i changes its slot and nothing else. */
  lemma Stored(fs: seq<Field>, cells: Memory, i: nat, s: Slot)
    requires WfDesc(fs) && i < |fs| && HasShape(fs, cells)
    ensures HasShape(fs, cells[DataAddress(fs, i) := s])
    ensures ContentsOf(fs, cells[DataAddress(fs, i) := s]) == ContentsOf(fs, cells)[SlotOf(fs, i) := s]
  {
    SlotOfIsFirst(fs, i);
    var after := ContentsOf(fs, cells[DataAddress(fs, i) := s]);
    forall k | 0 <= k < |fs|
      ensures after[k] == ContentsOf(fs, cells)[SlotOf(fs, i) := s][k]
    {
      SharedMemory(fs, i, k);
    }
  }

  /** A message struct: memory cells, each at the address of its field's data. */
  class Struct {
    var cells: Memory

    /** The struct holds the message m. */
    ghost predicate Holds(fs: seq<Field>, m: seq<Slot>)
      reads this
    {
      HasShape(fs, cells) && ContentsOf(fs, cells) == m
    }

    constructor (fs: seq<Field>, m: seq<Slot>)
      requires WfDesc(fs) && Shaped(fs, m)
      ensures Holds(fs, m)
    {
      cells := CellsOf(fs, 0, m);
      new;
      CellsHold(fs, 0, m);
      forall i | 0 <= i < |fs|
        ensures DataAddress(fs, i) in cells
        ensures SlotOf(fs, i) == i ==> cells[DataAddress(fs, i)] == m[i]
      {
        SlotAddress(fs, i);
        SlotOfIsFirst(fs, i);
      }
    }
  }

  function CellsOf(fs: seq<Field>, i: nat, m: seq<Slot>): Memory
    requires i <= |fs| == |m|
    decreases |fs| - i
  {
    if i == |fs| then map[]
    else if SlotOf(fs, i) == i then CellsOf(fs, i + 1, m)[DataAddress(fs, i) := m[i]]
    else CellsOf(fs, i + 1, m)
  }

  lemma {:induction false} CellsHold(fs: seq<Field>, i: nat, m: seq<Slot>)
    requires WfDesc(fs) && i <= |fs| == |m|
    ensures forall k :: i <= k < |fs| && SlotOf(fs, k) == k ==>
              DataAddress(fs, k) in CellsOf(fs, i, m) && CellsOf(fs, i, m)[DataAddress(fs, k)] == m[k]
    decreases |fs| - i
  {
    if i < |fs| {
      CellsHold(fs, i + 1, m);
      forall k | i < k < |fs| && SlotOf(fs, k) == k
        ensures SlotOf(fs, i) == i ==> DataAddress(fs, k) != DataAddress(fs, i)
      {
        SharedMemory(fs, i, k);
      }
    }
  }

  /** Where pSize points: into the struct, or at the element counter of the field loop. */
  datatype SizePointer = At(address: int) | FixedCounter

  /** pb_field_iter_t. At the terminator, which only happens for a message type without fields,
      pos is |fields|. */
  class FieldIter {
    const fields: seq<Field>
    var pos: nat
    var pData: int
    var pSize: SizePointer
    var requiredFieldIndex: nat

    /** The pointers and the index are those of a plain walk from the first field to this one. */
    ghost predicate Coherent()
      reads this
    {
      && pos <= |fields|
      && (pos == |fields| ==> fields == [])
      && (pos < |fields| ==>
            && pData == DataAddress(fields, pos)
            && (pSize == At(SizeAddress(fields, pos)) || (pSize == FixedCounter && fields[pos].FixedCount()))
            && requiredFieldIndex == RequiredBefore(fields, pos))
      && (fields == [] ==> requiredFieldIndex == 0 && pSize == At(pData))
    }

    constructor (fields: seq<Field>)
      ensures this.fields == fields && pos == 0 && Coherent()
      ensures fields != [] ==> pSize == At(SizeAddress(fields, 0))
    {
      this.fields := fields;
      pos, requiredFieldIndex := 0, 0;
      pData := if fields != [] then fields[0].dataOffset else 0;
      pSize := At(if fields != [] then fields[0].dataOffset + fields[0].sizeOffset else 0);
    }

    /** pb_field_iter_begin. */
    method Begin() returns (any: bool)
      modifies this
      ensures pos == 0 && Coherent() && any == (fields != [])
      ensures fields != [] ==> pSize == At(SizeAddress(fields, 0))
    {
      pos := 0;
      requiredFieldIndex := 0;
      pData := if fields != [] then fields[0].dataOffset else 0;
      pSize := At(pData + if fields != [] then fields[0].sizeOffset else 0);
      any := fields != [];
    }

    /** pb_field_iter_next: wraps around to the first field. */
    method Next() returns (more: bool)
      requires Coherent()
      modifies this
      ensures Coherent()
      ensures fields != [] ==>
                pos == (if old(pos) + 1 < |fields| then old(pos) + 1 else 0) && pSize == At(SizeAddress(fields, pos))
      ensures more <==> old(pos) + 1 < |fields|
    {
      if pos == |fields| {
        // Without fields there is nowhere to go.
        return false;
      }
      var prev := fields[pos];
      pos := pos + 1;
      if pos == |fields| {
        var any := Begin();
        return false;
      }
      more := true;
      var prevSize := prev.dataSize;
      if prev.htype == Oneof && fields[pos].htype == Oneof && fields[pos].dataOffset == SIZE_MAX {
        // The next member lies at the same address.
        return;
      } else if prev.htype == Repeated {
        prevSize := prevSize * prev.arraySize;
      }
      if prev.htype == Required {
        requiredFieldIndex := requiredFieldIndex + 1;
      }
      pData := pData + prevSize + fields[pos].dataOffset;
      pSize := At(pData + fields[pos].sizeOffset);
    }

    /** pb_field_iter_find: looks for a tag from the current field on, once around. */
    method Find(tag: nat) returns (found: bool)
      requires Coherent()
      modifies this
      ensures Coherent()
      ensures found <==> (exists i :: 0 <= i < |fields| && fields[i].tag == tag) || (fields == [] && tag == 0)
      ensures found && fields != [] ==> fields[pos].tag == tag
      ensures !found ==> pos == old(pos)
      ensures found && pos == old(pos) ==> pSize == old(pSize)
      ensures (!found || pos != old(pos)) && fields != [] ==> pSize == At(SizeAddress(fields, pos))
    {
      ghost var n, k := |fields|, 0;
      var start := pos;
      while true
        invariant Coherent() && 0 <= k <= n
        invariant n == 0 ==> pos == start
        invariant n > 0 ==> k < n && pos == if start + k < n then start + k else start + k - n
        invariant k > 0 ==> pSize == At(SizeAddress(fields, pos))
        invariant k == 0 ==> pos == start && pSize == old(pSize)
        invariant forall i :: 0 <= i < n && (start <= i < start + k || i < start + k - n) ==> fields[i].tag != tag
        decreases n - k
      {
        if (if pos < |fields| then fields[pos].tag else 0) == tag {
          return true;
        }
        var _ := Next();
        k := k + 1;
        if pos == start {
          // Every field was looked at once.
          return false;
        }
      }
    }
  }
}
