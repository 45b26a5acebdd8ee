/** ref_buffer (buffers/src/ref_buffer.cpp): the same contents whether they were copied or referenced. */
module RefBuffers {
  import opened Arithmetic
  import opened InputBuffers
  import opened BufferStreams

  const NPOS: nat := SIZE_LIMIT - 1

  /** The two alternatives of the variant; the copied one holds its own container. */
  datatype Stored = Copied(buffer: Buffer) | Referenced(buffer: Buffer)

  /** What read_buffer builds: a container with the physical bytes, with virtual bytes behind it if there are any. */
  ghost function CopyOf(b: Buffer): Buffer
    requires b.WellFormed()
  {
    var f := FlatOf(b);
    var container := Container(f.bytes[..f.physical], f.absoluteOffset, f.relativeOffset);
    if b.VirtualSize() > 0 then Virtual(container, b.VirtualSize()) else container
  }

  lemma {:induction false} OffsetsFit(b: Buffer)
    requires b.WellFormed()
    ensures b.Absolute() < SIZE_LIMIT && b.Relative() < SIZE_LIMIT
    decreases b
  {
    match b {
      case Container(_, _, _) =>
      case Virtual(inner, _) => OffsetsFit(inner);
      case Section(inner, _, _, _, _, _) =>
    }
  }

  /** A copy cannot be told from the original. */
  lemma {:induction false} CopyIsFaithful(b: Buffer)
    requires b.WellFormed()
    ensures CopyOf(b).WellFormed() && FlatOf(CopyOf(b)) == FlatOf(b)
  {
    OffsetsFit(b);
    PhysicalThenZeroes(b);
    var f, copy, n := FlatOf(b), CopyOf(b), b.VirtualSize();
    var zeroes: seq<byte> := seq(n, _ => 0);
    assert f.bytes == f.bytes[..f.physical] + zeroes;
    var leaf := Container(f.bytes[..f.physical], f.absoluteOffset, f.relativeOffset);
    assert leaf.WellFormed() && leaf.Size() == f.physical && leaf.View() == leaf.bytes;
    if n > 0 {
      assert copy == Virtual(leaf, n) && copy.WellFormed();
      assert copy.View() == f.bytes[..f.physical] + zeroes;
      assert leaf.VirtualSize() == 0 && copy.VirtualSize() == n && copy.Size() == f.physical + n;
      assert copy.Absolute() == leaf.Absolute() == f.absoluteOffset;
      assert copy.Relative() == leaf.Relative() == f.relativeOffset;
    } else {
      assert f.bytes[..f.physical] == f.bytes;
    }
  }

  /** The bytes that serialize_until writes, or its error: by the flat contents alone. */
  function Slice(f: Flat, offset: nat, size: nat, writeVirtual: bool): Result<seq<byte>>
    requires f.physical <= |f.bytes|
  {
    var limit := if writeVirtual then |f.bytes| else f.physical;
    if size == NPOS then Success(if offset > limit then [] else f.bytes[offset..limit])
    else if !IsSumSafe(size, offset) then Failure(IntegerOverflow)
    else if size == 0 then Success([])
    else if size + offset > limit then Failure(BufferOverrun)
    else Success(f.bytes[offset..offset + size])
  }

  /** Everything from the offset on if no size is given, and otherwise exactly the size asked for, or an error. */
  lemma {:induction false} SliceMeans(f: Flat, offset: nat, size: nat, writeVirtual: bool)
    requires f.physical <= |f.bytes| < SIZE_LIMIT && offset < SIZE_LIMIT && size < SIZE_LIMIT
    ensures var r, limit := Slice(f, offset, size, writeVirtual), if writeVirtual then |f.bytes| else f.physical;
            && (r.Success? <==> size == 0xFFFF_FFFF_FFFF_FFFF || size == 0 || offset + size <= limit)
            && (r == Failure(IntegerOverflow) <==> size != 0xFFFF_FFFF_FFFF_FFFF && offset + size >= 0x1_0000_0000_0000_0000)
            && (r.Success? && size != 0xFFFF_FFFF_FFFF_FFFF ==> |r.value| == size)
            && (r.Success? && size == 0xFFFF_FFFF_FFFF_FFFF ==> |r.value| == if offset < limit then limit - offset else 0)
            && (r.Success? ==> forall i :: 0 <= i < |r.value| ==> r.value[i] == f.bytes[offset + i])
  {
  }

  class RefBuffer {
    var stored: Stored

    ghost predicate Valid()
      reads this
    {
      && stored.buffer.WellFormed()
      && (stored.Copied? ==> stored.buffer.Container? || (stored.buffer.Virtual? && stored.buffer.inner.Container?))
    }

    ghost function Contents(): Flat
      requires Valid()
      reads this
    {
      FlatOf(stored.buffer)
    }

    constructor ()
      ensures Valid() && Contents() == Flat([], 0, 0, 0)
    {
      stored := Copied(Container([], 0, 0));
    }

    /** Copy assignment: a reference to the other's data. */
    method Assign(other: RefBuffer)
      requires other.Valid() && Valid()
      modifies this
      ensures Valid() && Contents() == old(other.Contents())
    {
      if other != this {
        stored := Referenced(other.stored.buffer);
      }
    }

    /** Either way of loading gives the same contents. */
    method Deserialize(buffer: Buffer, copyMemory: bool)
      requires buffer.WellFormed()
      modifies this
      ensures Valid() && Contents() == FlatOf(buffer)
      ensures stored.Copied? == copyMemory
    {
      if copyMemory {
        ReadBuffer(buffer);
      } else {
        stored := Referenced(buffer);
      }
    }

    method ReadBuffer(buf: Buffer)
      requires buf.WellFormed()
      modifies this
      ensures Valid() && stored == Copied(CopyOf(buf)) && Contents() == FlatOf(buf)
    {
      PhysicalThenZeroes(buf);
      CopyIsFaithful(buf);
      var physicalSize := PhysicalSize(buf);
      var container := new byte[physicalSize](_ => 0);
      if physicalSize > 0 {
        var readBytes := Read(buf, 0, container.Length, container, 0);
        // the check for a short read never fires
        assert readBytes == Success(container.Length);
        assert container[..] == buf.View()[..physicalSize];
      }
      var leaf := Container(container[..], buf.Absolute(), buf.Relative());
      if buf.VirtualSize() > 0 {
        stored := Copied(Virtual(leaf, buf.VirtualSize()));
      } else {
        stored := Copied(leaf);
      }
    }

    method CopyReferencedBuffer()
      requires Valid()
      modifies this
      ensures Valid() && stored.Copied? && Contents() == old(Contents())
    {
      if stored.Referenced? {
        ReadBuffer(stored.buffer);
      }
    }

    /** copied_data() const: the container's bytes are the physical ones. */
    method CopiedData() returns (r: Result<seq<byte>>)
      requires Valid()
      ensures r == if stored.Copied? then Success(Contents().bytes[..Contents().physical]) else Failure(DataIsNotCopied)
    {
      if stored.Referenced? {
        return Failure(DataIsNotCopied);
      }
      var leaf := if stored.buffer.Virtual? then stored.buffer.inner else stored.buffer;
      assert leaf.bytes == stored.buffer.View()[..|leaf.bytes|];
      assert PhysicalSize(stored.buffer) == |leaf.bytes|;
      r := Success(leaf.bytes);
    }

    method SerializeUntil(out: OutputMemory, offset: nat, size: nat, writeVirtual: bool) returns (r: Result<nat>)
      requires Valid() && out.Valid() && offset < SIZE_LIMIT && size < SIZE_LIMIT
      modifies out
      ensures out.Valid()
      ensures var slice := Slice(Contents(), offset, size, writeVirtual);
              && r == (if slice.Failure? then Failure(slice.error) else Success(|slice.value|))
              && out.data == (if slice.Failure? then old(out.data) else Overwrite(old(out.data), old(out.pos), slice.value))
              && out.pos == old(out.pos) + (if slice.Failure? then 0 else |slice.value|)
      ensures r.Failure? ==> out.data == old(out.data) && out.pos == old(out.pos)
      ensures r.Success? ==>
        && out.pos == old(out.pos) + r.value && OthersKept(old(out.data), old(out.pos), out.data, out.pos)
        && (r.value > 0 ==>
             && offset + r.value <= |Contents().bytes|
             && out.data[old(out.pos)..out.pos] == Contents().bytes[offset..offset + r.value])
    {
      hide Overwrite, ZeroFrom, MakeSection, Copyable, OthersKept;
      NothingChanged(out.data, out.pos);
      var ref := stored.buffer;
      ghost var flat := FlatOf(ref);
      PhysicalThenZeroes(ref);
      OverwriteNothing(out.data, out.pos);
      var refSize: nat := ref.Size();
      if !writeVirtual {
        refSize := refSize - ref.VirtualSize();
      }
      var n := size;
      if size == NPOS {
        n := if offset > refSize then 0 else refSize - offset;
      } else if !IsSumSafe(size, offset) {
        return Failure(IntegerOverflow);
      }
      if n > 0 {
        if n + offset > refSize {
          return Failure(BufferOverrun);
        }
        WriteSlice(ref, out, offset, n);
      }
      return Success(n);
    }

    static method WriteSlice(ref: Buffer, out: OutputMemory, offset: nat, n: nat)
      requires ref.WellFormed() && out.Valid() && offset < SIZE_LIMIT && offset + n <= ref.Size()
      modifies out
      ensures out.Valid()
      ensures out.data == Overwrite(old(out.data), old(out.pos), ref.View()[offset..offset + n])
      ensures out.pos == old(out.pos) + n && OthersKept(old(out.data), old(out.pos), out.data, out.pos)
      ensures out.data[old(out.pos)..out.pos] == ref.View()[offset..offset + n]
    {
      hide Overwrite, ZeroFrom, MakeSection;
      PhysicalThenZeroes(ref);
      var wrapper := new Cursor(ref);
      var moved := wrapper.SetRpos(offset);
      AllCopied(ref.Size() - offset, n);
      var copied := Copy(wrapper, out, n);
      OverwriteMeans(old(out.data), old(out.pos), ref.View()[offset..offset + n]);
    }

    method Serialize(out: OutputMemory, writeVirtual: bool)
      requires Valid() && out.Valid()
      modifies out
      ensures out.Valid()
      ensures var all := if writeVirtual then Contents().bytes else Contents().bytes[..Contents().physical];
              && out.data == Overwrite(old(out.data), old(out.pos), all) && out.pos == old(out.pos) + |all|
              && OthersKept(old(out.data), old(out.pos), out.data, out.pos) && out.data[old(out.pos)..out.pos] == all
    {
      hide Overwrite, OthersKept;
      NothingChanged(out.data, out.pos);
      var buf := stored.buffer;
      ghost var flat := FlatOf(buf);
      PhysicalThenZeroes(buf);
      OverwriteNothing(out.data, out.pos);
      var size: nat := buf.Size();
      if !writeVirtual {
        size := size - buf.VirtualSize();
      }
      assert flat.bytes[0..size] == flat.bytes[..size];
      assert size == |flat.bytes| ==> flat.bytes[..size] == flat.bytes;
      if size == 0 {
        return;
      }
      var wrapper := new Cursor(buf);
      AllCopied(buf.Size(), size);
      var copied := Copy(wrapper, out, size);
      OverwriteMeans(old(out.data), old(out.pos), flat.bytes[..size]);
    }
  }

  /** Loaded by copy or by reference, serialize_until does the same and leaves the same output behind. */
  method CopyOrReference(source: Buffer, before: seq<byte>, offset: nat, size: nat, writeVirtual: bool)
    returns (copied: seq<byte>, referenced: seq<byte>, r: Result<nat>, r': Result<nat>)
    requires source.WellFormed() && offset < SIZE_LIMIT && size < SIZE_LIMIT
    ensures r == r' && copied == referenced
    ensures Slice(FlatOf(source), offset, size, writeVirtual).Success? ==>
      copied == Overwrite(before, 0, Slice(FlatOf(source), offset, size, writeVirtual).value)
  {
    hide Overwrite, Slice, FlatOf, Buffer.WellFormed;
    var a := new RefBuffer();
    var b := new RefBuffer();
    a.Deserialize(source, true);
    b.Deserialize(source, false);
    var out := new OutputMemory(before);
    var out' := new OutputMemory(before);
    r := a.SerializeUntil(out, offset, size, writeVirtual);
    r' := b.SerializeUntil(out', offset, size, writeVirtual);
    copied, referenced := out.data, out'.data;
  }
}
