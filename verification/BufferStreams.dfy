/** The read cursor, the growing output, the chunked copy and ref_buffer (buffers/src), all proved against the flat
    sequence of the buffer behind them. */
module BufferStreams {
  import opened Arithmetic
  import opened InputBuffers

  /** All that can be observed of a buffer. */
  datatype Flat = Flat(bytes: seq<byte>, physical: nat, absoluteOffset: nat, relativeOffset: nat)

  ghost function FlatOf(b: Buffer): (f: Flat)
    requires b.WellFormed()
    ensures f.physical <= |f.bytes| == b.Size() < SIZE_LIMIT
  {
    PhysicalThenZeroes(b);
    Flat(b.View(), PhysicalSize(b), b.Absolute(), b.Relative())
  }

  const INT32_MIN: int := -0x8000_0000

  /** utilities::math::add_offset_if_safe: the least int32 is refused whatever the position. */
  function AddOffset(pos: nat, offset: int): Result<nat>
    requires INT32_MIN <= offset < 0x8000_0000
  {
    if offset < 0 then
      if offset == INT32_MIN || 0 - offset > pos then Failure(BufferOverrun) else Success(pos + offset)
    else if !IsSumSafe(pos, offset) then Failure(BufferOverrun)
    else Success(pos + offset)
  }

  class Cursor {
    const buf: Buffer
    var pos: nat

    ghost predicate Valid()
      reads this
    {
      buf.WellFormed() && buf.VirtualSize() <= buf.Size() < SIZE_LIMIT && pos <= buf.Size()
    }

    constructor (buf: Buffer)
      requires buf.WellFormed()
      ensures Valid() && this.buf == buf && pos == 0
    {
      PhysicalThenZeroes(buf);
      this.buf, pos := buf, 0;
    }

    method Read(count: nat, data: array<byte>, at: nat) returns (r: Result<nat>)
      requires Valid() && count < SIZE_LIMIT && at + count <= data.Length
      modifies this`pos, data
      ensures Valid()
      ensures r == ReadResult(buf.Size(), FlatOf(buf).physical, old(pos), count)
      ensures pos == old(pos) + if r.Success? then count else 0
      ensures r.Success? ==>
        pos <= buf.Size() && data[..] == old(data[..at]) + buf.View()[old(pos)..pos] + old(data[at + count..])
      ensures r.Failure? ==> data[..] == old(data[..])
    {
      hide PhysicalPart, Buffer.VirtualSize;
      r := InputBuffers.Read(buf, pos, count, data, at);
      if r.Success? {
        if count == 0 {
          NoPiece(data[..], at, buf.View()[pos..pos]);
        }
        pos := pos + count;
      }
    }

    method SetRpos(p: nat) returns (r: Result<()>)
      requires Valid()
      modifies this`pos
      ensures Valid()
      ensures r == if p <= buf.Size() then Success(()) else Failure(BufferOverrun)
      ensures pos == if r.Success? then p else old(pos)
    {
      if p > buf.Size() {
        return Failure(BufferOverrun);
      }
      pos := p;
      return Success(());
    }

    method AdvanceRpos(offset: int) returns (r: Result<()>)
      requires Valid() && INT32_MIN <= offset < 0x8000_0000
      modifies this`pos
      ensures Valid()
      ensures r.Success? <==> offset != INT32_MIN && 0 <= old(pos) + offset <= buf.Size()
      ensures pos == old(pos) + if r.Success? then offset else 0
    {
      var newPos := AddOffset(pos, offset);
      if newPos.Failure? {
        return Failure(newPos.error);
      }
      r := SetRpos(newPos.value);
    }
  }

  // ---- output ----

  /** data with bytes written from pos on, longer if need be. */
  function Overwrite(data: seq<byte>, pos: nat, bytes: seq<byte>): seq<byte>
    requires pos <= |data|
  {
    data[..pos] + bytes + (if pos + |bytes| < |data| then data[pos + |bytes|..] else [])
  }

  /** Only the bytes from start to end may have changed, and no more bytes than these were added. */
  ghost predicate OthersKept(before: seq<byte>, start: nat, after: seq<byte>, end: nat)
    requires start <= |before| && start <= end
  {
    && |after| == (if end < |before| then |before| else end)
    && after[..start] == before[..start] && (end < |before| ==> after[end..] == before[end..])
  }

  lemma {:induction false} NothingChanged(before: seq<byte>, start: nat)
    requires start <= |before|
    ensures OthersKept(before, start, before, start)
  {
  }

  /** The bytes are in place, those before and behind them are the old ones, and the length is no more than needed. */
  lemma {:induction false} OverwriteMeans(data: seq<byte>, pos: nat, bytes: seq<byte>)
    requires pos <= |data|
    ensures var r, end := Overwrite(data, pos, bytes), pos + |bytes|;
            && |r| == (if end < |data| then |data| else end)
            && r[..pos] == data[..pos] && r[pos..end] == bytes
            && (end < |data| ==> r[end..] == data[end..])
            && OthersKept(data, pos, r, end)
  {
  }

  lemma {:induction false} OverwriteInPieces(data: seq<byte>, pos: nat, a: seq<byte>, b: seq<byte>)
    requires pos <= |data|
    ensures pos + |a| <= |Overwrite(data, pos, a)|
    ensures Overwrite(Overwrite(data, pos, a), pos + |a|, b) == Overwrite(data, pos, a + b)
  {
  }

  lemma {:induction false} OverwriteNothing(data: seq<byte>, pos: nat)
    requires pos <= |data|
    ensures Overwrite(data, pos, []) == data
  {
  }

  const MAX_VECTOR: nat := 0x7FFF_FFFF_FFFF_FFFF

  lemma {:induction false} OverwriteEmpty(bytes: seq<byte>)
    ensures Overwrite([], 0, bytes) == bytes
  {
  }

  class OutputMemory {
    var data: seq<byte>
    var pos: nat

    ghost predicate Valid()
      reads this
    {
      pos <= |data|
    }

    constructor (data: seq<byte>)
      ensures Valid() && this.data == data && pos == 0
    {
      this.data, pos := data, 0;
    }

    method Write(count: nat, source: array<byte>)
      requires Valid() && count <= source.Length
      modifies this
      ensures Valid() && pos == old(pos) + count
      ensures data == Overwrite(old(data), old(pos), source[..count])
      ensures |data| == if pos < |old(data)| then |old(data)| else pos
      ensures forall i :: 0 <= i < old(pos) || pos <= i < |old(data)| ==> data[i] == old(data)[i]
      ensures forall i :: 0 <= i < count ==> data[old(pos) + i] == source[i]
    {
      if pos + count > |data| {
        data := data + seq(pos + count - |data|, _ => 0);
      }
      data := data[..pos] + source[..count] + data[pos + count..];
      pos := pos + count;
    }

    method SetWpos(p: nat) returns (r: Result<()>)
      requires Valid()
      modifies this
      ensures Valid()
      ensures r == if p < MAX_VECTOR then Success(()) else Failure(BufferOverrun)
      ensures pos == if r.Success? then p else old(pos)
      ensures data == if r.Success? && p > |old(data)| then old(data) + seq(p - |old(data)|, _ => 0) else old(data)
    {
      if p >= MAX_VECTOR {
        return Failure(BufferOverrun);
      }
      if p > |data| {
        data := data + seq(p - |data|, _ => 0);
      }
      pos := p;
      return Success(());
    }

    method AdvanceWpos(offset: int) returns (r: Result<()>)
      requires Valid() && INT32_MIN <= offset < 0x8000_0000
      modifies this
      ensures Valid()
      ensures r.Success? <==> offset != INT32_MIN && 0 <= old(pos) + offset < MAX_VECTOR
      ensures pos == old(pos) + if r.Success? then offset else 0
      ensures data == if r.Success? && pos > |old(data)| then old(data) + seq(pos - |old(data)|, _ => 0) else old(data)
    {
      var newPos := AddOffset(pos, offset);
      if newPos.Failure? {
        return Failure(newPos.error);
      }
      r := SetWpos(newPos.value);
    }
  }

  /** How much of a copy of size bytes with `available` bytes left is written before it ends. */
  function Copyable(available: nat, size: nat): (n: nat)
    ensures n <= available
    ensures n <= size
  {
    if size <= available then size else available - available % 512
  }

  /** All of it if it is there, and otherwise the whole blocks before the end. */
  lemma {:induction false} CopyableMeans(available: nat, size: nat)
    ensures var n := Copyable(available, size);
            && (size <= available ==> n == size)
            && (size > available ==> n % 512 == 0 && n <= available < n + 512)
  {
  }

  /** copy: through a 512-byte block. A copy that runs past the end fails, with the whole blocks before it written. */
  method Copy(from: Cursor, to: OutputMemory, size: nat) returns (r: Result<nat>)
    requires from.Valid() && to.Valid() && size < SIZE_LIMIT
    modifies from`pos, to
    ensures from.Valid() && to.Valid()
    ensures r == if size <= from.buf.Size() - old(from.pos) then Success(size) else Failure(BufferOverrun)
    ensures var n := Copyable(from.buf.Size() - old(from.pos), size);
            && from.pos == old(from.pos) + n && to.pos == old(to.pos) + n
            && to.data == Overwrite(old(to.data), old(to.pos), from.buf.View()[old(from.pos)..old(from.pos) + n])
  {
    hide Overwrite, Copyable;
    var temp := new byte[512](_ => 0);
    var remaining, count := size, size;
    ghost var start, view := from.pos, from.buf.View();
    ghost var done := 0;
    OverwriteNothing(to.data, to.pos);
    NothingRead(view, start);
    while remaining > 0 && count > 0
      invariant from.Valid() && to.Valid()
      invariant remaining == size - done && 0 <= done <= size && (remaining > 0 ==> count > 0 && done % 512 == 0)
      invariant from.pos == start + done && to.pos == old(to.pos) + done
      invariant to.data == Overwrite(old(to.data), old(to.pos), view[start..start + done])
      decreases remaining
    {
      count := Min(remaining, 512);
      var read := from.Read(count, temp, 0);
      if read.Failure? {
        StoppedAt(|view| - start, size, done, count);
        return Failure(read.error);
      }
      FirstBytes(temp[..], view[start + done..start + done + count], count);
      to.Write(count, temp);
      OverwriteInPieces(old(to.data), old(to.pos), view[start..start + done], temp[..count]);
      JoinedSlices(view, start, done, count);
      remaining := remaining - count;
      done := done + count;
    }
    AllCopied(|view| - start, size);
    return Success(size);
  }

  lemma {:induction false} NothingRead(v: seq<byte>, start: nat)
    requires start <= |v|
    ensures v[start..start] == []
  {
  }

  lemma {:induction false} FirstBytes(temp: seq<byte>, piece: seq<byte>, count: nat)
    requires count == |piece| <= |temp| && temp == piece + temp[count..]
    ensures temp[..count] == piece
  {
  }

  lemma {:induction false} JoinedSlices(v: seq<byte>, start: nat, done: nat, count: nat)
    requires start + done + count <= |v|
    ensures v[start..start + done] + v[start + done..start + done + count] == v[start..start + (done + count)]
  {
  }

  lemma {:induction false} StoppedAt(available: nat, size: nat, done: nat, count: nat)
    requires done % 512 == 0 && done <= available && done < size && count == Min(size - done, 512)
    requires done + count > available
    ensures size > available && Copyable(available, size) == done
  {
  }

  lemma {:induction false} AllCopied(available: nat, size: nat)
    requires size <= available
    ensures Copyable(available, size) == size
  {
  }
}
