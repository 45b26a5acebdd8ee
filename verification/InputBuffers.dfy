/** Nested input buffers (buffers/src/input_*_buffer*.cpp) and the flat sequence of bytes they stand for. */
module InputBuffers {
  import opened Arithmetic

  /** size_t has 64 bits. */
  const SIZE_LIMIT: nat := TWO64

  datatype Error = IntegerOverflow | BufferOverrun | UnableToReadData | DataIsNotCopied

  datatype Result<T> = Success(value: T) | Failure(error: Error)

  /** utilities::math::is_sum_safe on size_t. */
  predicate IsSumSafe(a: nat, b: nat) {
    a + b < SIZE_LIMIT
  }

  function Min(a: nat, b: nat): nat {
    if a <= b then a else b
  }

  /** A leaf that owns its bytes, a buffer with zeroes behind it, or a part of a buffer. */
  datatype Buffer =
    | Container(bytes: seq<byte>, absoluteOffset: nat, relativeOffset: nat)
    | Virtual(inner: Buffer, additional: nat)
    | Section(inner: Buffer, offset: nat, size: nat, virtualBytes: nat, absoluteOffset: nat, relativeOffset: nat)
  {
    function Size(): nat {
      match this
      case Container(bytes, _, _) => |bytes|
      case Virtual(inner, additional) => inner.Size() + additional
      case Section(_, _, size, _, _, _) => size
    }

    function VirtualSize(): nat {
      match this
      case Container(_, _, _) => 0
      case Virtual(inner, additional) => inner.VirtualSize() + additional
      case Section(_, _, _, virtualBytes, _, _) => virtualBytes
    }

    function Absolute(): nat {
      match this
      case Container(_, absolute, _) => absolute
      case Virtual(inner, _) => inner.Absolute()
      case Section(_, _, _, _, absolute, _) => absolute
    }

    function Relative(): nat {
      match this
      case Container(_, _, relative) => relative
      case Virtual(inner, _) => inner.Relative()
      case Section(_, _, _, _, _, relative) => relative
    }

    /** Built by the constructors, with sizes and offsets that do not overflow. */
    ghost predicate WellFormed() {
      match this
      case Container(bytes, absolute, relative) =>
        |bytes| < SIZE_LIMIT && absolute < SIZE_LIMIT && relative < SIZE_LIMIT
      case Virtual(inner, additional) =>
        inner.WellFormed() && inner.Size() + additional < SIZE_LIMIT
      case Section(inner, offset, size, _, _, _) =>
        inner.WellFormed() && inner.VirtualSize() <= inner.Size() && MakeSection(inner, offset, size) == Success(this)
    }

    /** The flat sequence a buffer stands for. */
    ghost function View(): (v: seq<byte>)
      requires WellFormed()
      ensures |v| == Size()
    {
      match this
      case Container(bytes, _, _) => bytes
      case Virtual(inner, additional) => inner.View() + seq(additional, _ => 0)
      case Section(inner, offset, size, _, _, _) => inner.View()[offset..offset + size]
    }
  }

  /** buffer_interface::physical_size. */
  function PhysicalSize(b: Buffer): nat
    requires b.VirtualSize() <= b.Size()
  {
    b.Size() - b.VirtualSize()
  }

  /** The constructor of input_buffer_section. */
  function MakeSection(inner: Buffer, offset: nat, size: nat): Result<Buffer>
    requires inner.VirtualSize() <= inner.Size()
  {
    if !IsSumSafe(offset, size) then Failure(IntegerOverflow)
    else if offset + size > inner.Size() then Failure(BufferOverrun)
    else if !IsSumSafe(offset, inner.Absolute()) || !IsSumSafe(offset, inner.Relative()) then Failure(IntegerOverflow)
    else
      var physical, last := PhysicalSize(inner), offset + size;
      var virtualBytes := if last > physical then Min(last - physical, size) else 0;
      Success(Section(inner, offset, size, virtualBytes, offset + inner.Absolute(), offset + inner.Relative()))
  }

  /** What a section is: which requests are refused, and which bytes, how many of them physical and at which offsets, it
      stands for. */
  lemma {:induction false} SectionMeans(inner: Buffer, offset: nat, size: nat)
    requires inner.WellFormed() && inner.VirtualSize() <= inner.Size() && offset < SIZE_LIMIT && size < SIZE_LIMIT
    ensures MakeSection(inner, offset, size).Success? <==>
      offset + size <= inner.Size() && offset + inner.Absolute() < SIZE_LIMIT && offset + inner.Relative() < SIZE_LIMIT
    ensures MakeSection(inner, offset, size).Success? ==>
      var section := MakeSection(inner, offset, size).value;
      && section.WellFormed() && section.View() == inner.View()[offset..offset + size]
      && section.VirtualSize() <= section.Size()
      && PhysicalSize(section) == PhysicalPart(PhysicalSize(inner), offset, size)
      && section.Absolute() == inner.Absolute() + offset && section.Relative() == inner.Relative() + offset
  {
    PhysicalThenZeroes(inner);
  }

  ghost predicate ZeroFrom(v: seq<byte>, k: nat) {
    forall i :: k <= i < |v| ==> v[i] == 0
  }

  /** Whatever the nesting, a buffer is its physical bytes followed by zeroes. */
  lemma {:induction false} PhysicalThenZeroes(b: Buffer)
    requires b.WellFormed()
    ensures b.VirtualSize() <= b.Size() < SIZE_LIMIT
    ensures ZeroFrom(b.View(), PhysicalSize(b))
    decreases b
  {
    match b {
      case Container(_, _, _) =>
      case Virtual(inner, _) => PhysicalThenZeroes(inner);
      case Section(inner, _, _, _, _, _) => PhysicalThenZeroes(inner);
    }
  }

  /** How many of count bytes at pos are physical. */
  function PhysicalPart(physical: nat, pos: nat, count: nat): nat {
    if pos >= physical then 0 else Min(count, physical - pos)
  }

  /** The physical bytes of the request are its first ones. */
  lemma {:induction false} PhysicalPartMeans(physical: nat, pos: nat, count: nat, i: nat)
    ensures PhysicalPart(physical, pos, count) <= count
    ensures i < count ==> (pos + i < physical <==> i < PhysicalPart(physical, pos, count))
  {
  }

  /** What every read reports, by the flat sizes alone. */
  function ReadResult(size: nat, physical: nat, pos: nat, count: nat): Result<nat> {
    if count == 0 then Success(0)
    else if pos + count > size then Failure(BufferOverrun)
    else Success(PhysicalPart(physical, pos, count))
  }

  /** A read fails exactly if it asks for bytes behind the end, and reports how many of those asked for are physical. */
  lemma {:induction false} ReadMeans(size: nat, physical: nat, pos: nat, count: nat, i: nat)
    ensures var r := ReadResult(size, physical, pos, count);
            && (r.Success? <==> count == 0 || pos + count <= size)
            && (r.Success? ==> r.value <= count && (i < count ==> (pos + i < physical <==> i < r.value)))
  {
    PhysicalPartMeans(physical, pos, count, i);
  }

  /** The bytes from place `at` on replaced. */
  ghost function Placed(data: seq<byte>, at: nat, bytes: seq<byte>): seq<byte>
    requires at + |bytes| <= |data|
  {
    data[..at] + bytes + data[at + |bytes|..]
  }

  /** read() into data from place `at` on: a slice of the flat sequence, or nothing. */
  method Read(b: Buffer, pos: nat, count: nat, data: array<byte>, at: nat) returns (r: Result<nat>)
    requires b.WellFormed() && b.VirtualSize() <= b.Size()
    requires pos < SIZE_LIMIT && count < SIZE_LIMIT && at + count <= data.Length
    modifies data
    ensures r == ReadResult(b.Size(), PhysicalSize(b), pos, count)
    ensures r.Success? && count > 0 ==>
      data[..] == Placed(old(data[..]), at, b.View()[pos..pos + count])
    ensures r.Failure? || count == 0 ==> data[..] == old(data[..])
    decreases b, 0
  {
    hide MakeSection, ZeroFrom, Placed;
    if count == 0 {
      return Success(0);
    }
    PhysicalThenZeroes(b);
    match b {
      case Container(bytes, _, _) =>
        if !IsSumSafe(pos, count) || pos + count > |bytes| {
          return Failure(BufferOverrun);
        }
        CopyBytes(data, at, bytes[pos..pos + count]);
        return Success(count);
      case Virtual(inner, additional) =>
        r := ReadVirtual(inner, additional, pos, count, data, at);
      case Section(_, _, _, _, _, _) =>
        r := ReadSection(b, pos, count, data, at);
    }
  }

  /** input_buffer_section::read: the inner buffer, further on. */
  method ReadSection(b: Buffer, pos: nat, count: nat, data: array<byte>, at: nat) returns (r: Result<nat>)
    requires b.Section? && b.WellFormed() && b.VirtualSize() <= b.Size()
    requires pos < SIZE_LIMIT && 0 < count < SIZE_LIMIT && at + count <= data.Length
    modifies data
    ensures r == ReadResult(b.Size(), PhysicalSize(b), pos, count)
    ensures r.Success? ==> data[..] == Placed(old(data[..]), at, b.View()[pos..pos + count])
    ensures r.Failure? ==> data[..] == old(data[..])
    decreases b.inner, 1
  {
    hide MakeSection, ZeroFrom, PhysicalPart, Placed;
    PhysicalThenZeroes(b);
    if !IsSumSafe(pos, count) || pos + count > b.size {
      return Failure(BufferOverrun);
    }
    SectionReadsInner(b, pos, count);
    SliceOfSlice(b.inner.View(), b.offset, b.size, pos, count);
    r := Read(b.inner, pos + b.offset, count, data, at);
  }

  /** input_virtual_buffer::read: what the inner buffer has, then zeroes. */
  method ReadVirtual(inner: Buffer, additional: nat, pos: nat, count: nat, data: array<byte>,
      at: nat) returns (r: Result<nat>)
    requires inner.WellFormed() && Virtual(inner, additional).WellFormed() && inner.VirtualSize() <= inner.Size()
    requires pos < SIZE_LIMIT && 0 < count < SIZE_LIMIT && at + count <= data.Length
    modifies data
    ensures r == ReadResult(inner.Size() + additional, PhysicalSize(inner), pos, count)
    ensures r.Success? ==>
      data[..] == Placed(old(data[..]), at, Virtual(inner, additional).View()[pos..pos + count])
    ensures r.Failure? ==> data[..] == old(data[..])
    decreases inner, 2
  {
    hide MakeSection, ZeroFrom, PhysicalPart, PhysicalSize, Placed, Buffer.VirtualSize, Buffer.Size, Buffer.View,
      Buffer.WellFormed;
    VirtualMeans(inner, additional);
    var size := inner.Size();
    if !IsSumSafe(pos, count) || pos + count > size + additional {
      return Failure(BufferOverrun);
    }
    ghost var v, start := inner.View(), data[..];
    var realPhysical, expected := ReadUnderlying(inner, pos, count, data, at);
    ghost var piece, first := v[Min(pos, size)..Min(pos, size) + expected], data[..];
    var underlyingVirtual := expected - realPhysical;
    FillZero(data, at + expected, count - realPhysical - underlyingVirtual);
    JoinedVirtual(v, additional, pos, count, start, at, piece, first, data[..]);
    return Success(realPhysical);
  }

  lemma {:induction false} VirtualMeans(inner: Buffer, additional: nat)
    requires Virtual(inner, additional).WellFormed()
    ensures inner.WellFormed() && Virtual(inner, additional).View() == inner.View() + seq(additional, _ => 0)
    ensures Virtual(inner, additional).VirtualSize() - additional == inner.VirtualSize() <= inner.Size()
    ensures Virtual(inner, additional).Absolute() == inner.Absolute()
    ensures Virtual(inner, additional).Relative() == inner.Relative()
    ensures inner.Size() + additional < SIZE_LIMIT
  {
    hide MakeSection;
    PhysicalThenZeroes(inner);
  }

  lemma {:induction false} PhysicalWithin(b: Buffer)
    requires b.VirtualSize() <= b.Size()
    ensures PhysicalSize(b) <= b.Size()
  {
  }

  /** What the inner buffer has of it, if anything: how much is physical, and how much there is. */
  method ReadUnderlying(inner: Buffer, pos: nat, count: nat, data: array<byte>, at: nat)
    returns (realPhysical: nat, expected: nat)
    requires inner.WellFormed() && inner.VirtualSize() <= inner.Size()
    requires pos < SIZE_LIMIT && 0 < count < SIZE_LIMIT && at + count <= data.Length
    modifies data
    ensures expected == if inner.Size() > pos then Min(count, inner.Size() - pos) else 0
    ensures realPhysical == PhysicalPart(PhysicalSize(inner), pos, count) <= expected
    ensures data[..] == Placed(old(data[..]), at, inner.View()[Min(pos, inner.Size())..Min(pos, inner.Size()) + expected])
    decreases inner, 1
  {
    hide MakeSection, ZeroFrom, PhysicalPart, PhysicalSize, Placed, Buffer.VirtualSize, Buffer.Size, Buffer.View,
      Buffer.WellFormed;
    PhysicalWithin(inner);
    realPhysical, expected := 0, 0;
    VirtualPart(inner.Size(), PhysicalSize(inner), pos, count);
    if inner.Size() > pos {
      expected := Min(count, inner.Size() - pos);
      var read := Read(inner, pos, expected, data, at);
      realPhysical := read.value;
    } else {
      NoPiece(data[..], at, inner.View()[Min(pos, inner.Size())..Min(pos, inner.Size())]);
    }
  }

  lemma {:induction false} NoPiece(start: seq<byte>, at: nat, piece: seq<byte>)
    requires at <= |start| && piece == []
    ensures Placed(start, at, piece) == start
  {
  }

  /** memcpy. */
  method CopyBytes(data: array<byte>, at: nat, bytes: seq<byte>)
    requires at + |bytes| <= data.Length
    modifies data
    ensures data[..] == Placed(old(data[..]), at, bytes)
  {
    for i := 0 to |bytes|
      invariant forall k :: 0 <= k < data.Length ==>
        data[k] == if at <= k < at + i then bytes[k - at] else old(data[k])
    {
      data[at + i] := bytes[i];
    }
  }

  /** memset with zero. */
  method FillZero(data: array<byte>, at: nat, count: nat)
    requires at + count <= data.Length
    modifies data
    ensures data[..] == Placed(old(data[..]), at, seq(count, _ => 0))
  {
    for i := 0 to count
      invariant forall k :: 0 <= k < data.Length ==>
        data[k] == if at <= k < at + i then 0 else old(data[k])
    {
      data[at + i] := 0;
    }
  }

  lemma {:induction false} SectionReadsInner(section: Buffer, pos: nat, count: nat)
    requires section.Section? && section.WellFormed() && 0 < count && pos + count <= section.size
    ensures section.virtualBytes <= section.size && section.offset + section.size <= section.inner.Size() < SIZE_LIMIT
    ensures section.inner.VirtualSize() <= section.inner.Size()
    ensures PhysicalPart(PhysicalSize(section), pos, count)
      == PhysicalPart(PhysicalSize(section.inner), pos + section.offset, count)
  {
    PhysicalThenZeroes(section.inner);
  }

  /** The zeroes behind a buffer do not add to what is physical. */
  lemma {:induction false} VirtualPart(size: nat, physical: nat, pos: nat, count: nat)
    requires physical <= size && count > 0
    ensures size > pos ==> PhysicalPart(physical, pos, Min(count, size - pos)) == PhysicalPart(physical, pos, count)
    ensures size <= pos ==> PhysicalPart(physical, pos, count) == 0
    ensures size > pos ==> PhysicalPart(physical, pos, Min(count, size - pos)) <= Min(count, size - pos)
  {
  }

  lemma {:induction false} SliceOfSlice(v: seq<byte>, offset: nat, size: nat, pos: nat, count: nat)
    requires offset + size <= |v| && pos + count <= size
    ensures v[offset..offset + size][pos..pos + count] == v[pos + offset..pos + offset + count]
  {
    var a, b := v[offset..offset + size][pos..pos + count], v[pos + offset..pos + offset + count];
    assert |a| == |b| == count;
    forall k | 0 <= k < count ensures a[k] == b[k] {
      assert a[k] == v[offset..offset + size][pos + k] == v[offset + pos + k];
    }
  }

  lemma {:induction false} VirtualSlice(v: seq<byte>, additional: nat, pos: nat, count: nat)
    requires pos + count <= |v| + additional
    ensures var n := if |v| > pos then Min(count, |v| - pos) else 0;
            var from := Min(pos, |v|);
            (v + seq(additional, _ => 0))[pos..pos + count] == v[from..from + n] + seq(count - n, _ => 0)
  {
  }

  lemma {:induction false} PiecesJoined(start: seq<byte>, at: nat, piece: seq<byte>, zeroes: nat)
    requires at + |piece| + zeroes <= |start|
    ensures var first := start[..at] + piece + start[at + |piece|..];
            first[..at + |piece|] + seq(zeroes, _ => 0) + first[at + |piece| + zeroes..]
              == start[..at] + (piece + seq(zeroes, _ => 0)) + start[at + |piece| + zeroes..]
  {
  }

  lemma {:induction false} JoinedVirtual(v: seq<byte>, additional: nat, pos: nat, count: nat, start: seq<byte>, at: nat,
      piece: seq<byte>, first: seq<byte>, last: seq<byte>)
    requires pos + count <= |v| + additional && at + count <= |start|
    requires piece == v[Min(pos, |v|)..Min(pos, |v|) + (if |v| > pos then Min(count, |v| - pos) else 0)]
    requires first == Placed(start, at, piece)
    requires last == Placed(first, at + |piece|, seq(count - |piece|, _ => 0))
    ensures last == Placed(start, at, (v + seq(additional, _ => 0))[pos..pos + count])
  {
    VirtualSlice(v, additional, pos, count);
    PiecesJoined(start, at, piece, count - |piece|);
  }

  // ---- reduce ----

  /** input_buffer_section::reduce: a section of the same inner buffer. */
  function ReduceSection(section: Buffer, offset: nat, size: nat): Result<Buffer>
    requires section.Section? && section.inner.VirtualSize() <= section.inner.Size()
  {
    if !IsSumSafe(section.offset, offset) then Failure(IntegerOverflow)
    else
      var total := section.offset + offset;
      if !IsSumSafe(total, size) then Failure(IntegerOverflow)
      else if total + size > section.offset + section.size then Failure(BufferOverrun)
      else MakeSection(section.inner, total, size)
  }

  /** The two-argument reduce: everything from offset on. */
  function ReduceFrom(b: Buffer, offset: nat): Result<Buffer>
    requires b.VirtualSize() <= b.Size()
  {
    if offset > b.Size() then Failure(BufferOverrun) else MakeSection(b, offset, b.Size() - offset)
  }

  lemma {:induction false} SectionParts(section: Buffer)
    requires section.Section? && section.WellFormed()
    ensures section.inner.WellFormed() && section.inner.VirtualSize() <= section.inner.Size() < SIZE_LIMIT
    ensures section.offset < SIZE_LIMIT && section.size < SIZE_LIMIT && section.Size() == section.size
    ensures MakeSection(section.inner, section.offset, section.size) == Success(section)
  {
    PhysicalThenZeroes(section.inner);
  }

  /** Reducing a section flattens: it succeeds exactly when a section of the section can be built, and then stands for
      the same bytes at the same offsets. */
  lemma {:induction false} ReduceIsNesting(section: Buffer, offset: nat, size: nat)
    requires section.Section? && section.WellFormed() && offset < SIZE_LIMIT && size < SIZE_LIMIT
    ensures section.VirtualSize() <= section.Size()
    ensures var flat, nested := ReduceSection(section, offset, size), MakeSection(section, offset, size);
            && (flat.Success? <==> nested.Success?)
            && (flat.Success? ==>
                 && flat.value.WellFormed() && nested.value.WellFormed()
                 && flat.value.View() == nested.value.View() == section.View()[offset..offset + size]
                 && flat.value.Size() == nested.value.Size() && flat.value.VirtualSize() == nested.value.VirtualSize()
                 && flat.value.Absolute() == nested.value.Absolute() && flat.value.Relative() == nested.value.Relative())
  {
    hide ZeroFrom, MakeSection, Buffer.WellFormed, Buffer.View, Buffer.Absolute, Buffer.Relative, Buffer.Size,
      Buffer.VirtualSize;
    var inner := section.inner;
    SectionParts(section);
    SectionMeans(inner, section.offset, section.size);
    SectionMeans(section, offset, size);
    if section.offset + offset < SIZE_LIMIT {
      SectionMeans(inner, section.offset + offset, size);
    }
    if offset + size <= section.size {
      SliceOfSlice(inner.View(), section.offset, section.size, offset, size);
    }
  }

  /** ReduceFrom never overruns the end it computes itself; it fails for a start past the end or an offset overflow. */
  lemma {:induction false} ReduceFromIff(b: Buffer, offset: nat)
    requires b.WellFormed() && offset < SIZE_LIMIT
    ensures b.VirtualSize() <= b.Size()
    ensures ReduceFrom(b, offset).Success? <==>
      offset <= b.Size() && IsSumSafe(offset, b.Absolute()) && IsSumSafe(offset, b.Relative())
    ensures ReduceFrom(b, offset).Success? ==>
      ReduceFrom(b, offset).value.WellFormed() && ReduceFrom(b, offset).value.View() == b.View()[offset..]
  {
    PhysicalThenZeroes(b);
    if offset <= b.Size() {
      assert b.View()[offset..offset + (b.Size() - offset)] == b.View()[offset..];
    }
  }
}
