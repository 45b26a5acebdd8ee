/** packed_utf16_string (pe_bliss2/src/packed_utf16_string.cpp): a counted UTF-16 string whose end may lie in the zeroes
    behind the physical bytes. Little-endian host. */
module PackedUtf16Strings {
  import opened Arithmetic
  import opened InputBuffers
  import opened BufferStreams
  import opened PackedCStrings

  /** How many of length units from p on have at least one physical byte. */
  function PresentUnits(physical: nat, p: nat, length: nat): (n: nat)
    ensures n <= length
  {
    if p >= physical then 0 else Min(length, (physical - p + 1) / 2)
  }

  /** How many units the parser tries to read: one more than are present, to see the end, if the string is longer. */
  function UnitsTried(physical: nat, p: nat, length: nat): (n: nat)
    ensures n <= length
  {
    Min(length, PresentUnits(physical, p, length) + 1)
  }

  /** Whether the unit after `index` physical ones is physical at all decides whether the loop goes on. */
  lemma {:induction false} UnitPresent(physical: nat, start: nat, index: nat, length: nat)
    requires index < length && (index > 0 ==> start + 2 * index < physical)
    ensures index + 1 <= UnitsTried(physical, start + 2, length)
    ensures var more := PhysicalPart(physical, start + 2 + 2 * index, 2);
            && PhysicalPart(physical, start, 2 + 2 * index) + more == PhysicalPart(physical, start, 2 + 2 * (index + 1))
            && (more > 0 ==> start + 2 * (index + 1) < physical)
            && (more == 0 ==> PhysicalPart(physical, start, 2 + 2 * index) == PhysicalPart(physical, start, 2 + 2 * length))
            && (more == 0 ==> PresentUnits(physical, start + 2, length) == index)
            && (more == 0 ==> UnitsTried(physical, start + 2, length) == index + 1)
  {
  }

  lemma {:induction false} AllPresent(physical: nat, start: nat, length: nat)
    requires length > 0 ==> start + 2 * length < physical
    ensures PresentUnits(physical, start + 2, length) == length == UnitsTried(physical, start + 2, length)
  {
  }

  /** What the length field at start says. */
  function LengthAt(v: seq<byte>, start: nat): (n: nat)
    requires start + 2 <= |v|
    ensures n < 0x1_0000
  {
    UnitAt(v, 2, start)
  }

  /** The string is accepted: all the units the parser looks at are in range and, unless virtual data is allowed, all the
      string is physical. */
  predicate Parses(v: seq<byte>, physical: nat, start: nat, allowVirtual: bool) {
    && start + 2 <= |v|
    && (allowVirtual || start + 2 + 2 * LengthAt(v, start) <= physical)
    && start + 2 + 2 * UnitsTried(physical, start + 2, LengthAt(v, start)) <= |v|
  }

  /** The units counted are the first ones, as far as they begin among the physical bytes. */
  lemma {:induction false} PresentMeans(physical: nat, p: nat, length: nat, i: nat)
    ensures i < length ==> (p + 2 * i < physical <==> i < PresentUnits(physical, p, length))
  {
  }

  /** A string is accepted exactly if its length field is in range, and all of it is or, further on than the physical
      bytes, one of its units; without virtual data all of it has to be physical. */
  lemma {:induction false} ParsesIff(v: seq<byte>, physical: nat, start: nat, allowVirtual: bool)
    requires physical <= |v|
    ensures Parses(v, physical, start, allowVirtual) <==>
      && start + 2 <= |v|
      && var end := start + 2 + 2 * LengthAt(v, start);
         if allowVirtual then end <= |v| || VirtualUnit(|v|, physical, start + 2, LengthAt(v, start)) else end <= physical
  {
    hide UnitAt;
    if start + 2 <= |v| {
      var n := LengthAt(v, start);
      var k := PresentUnits(physical, start + 2, n);
      if start + 2 + 2 * UnitsTried(physical, start + 2, n) <= |v| < start + 2 + 2 * n {
        assert physical <= start + 2 + Bytes(2, k) && start + 2 + Bytes(2, k) + 2 <= |v|;
      }
    }
  }

  /** One of length units from p on is in range and has no physical byte. */
  ghost predicate VirtualUnit(size: nat, physical: nat, p: nat, length: nat) {
    exists i: nat :: i < length && physical <= p + Bytes(2, i) && p + Bytes(2, i) + 2 <= size
  }

  /** (virtual_size - 2) / 2 on size_t. */
  function VirtualStringLength(virtualSize: nat): nat {
    (if virtualSize >= 2 then virtualSize - 2 else virtualSize + SIZE_LIMIT - 2) / 2
  }

  /** Serializing is possible exactly for these sizes; a new string, of size zero, wraps around and is refused. */
  lemma {:induction false} SerializableIff(virtualSize: nat)
    requires virtualSize < SIZE_LIMIT
    ensures VirtualStringLength(virtualSize) <= 0xFFFF <==> 2 <= virtualSize < 2 + 2 * 0x1_0000
  {
  }

  /** Length field and units, as bytes. */
  function Image(length: nat, value: seq<nat>): (b: seq<byte>)
    ensures |b| == 2 + 2 * |value|
  {
    ToBytes(2, [length]) + ToBytes(2, value)
  }

  /** What serialize writes: the physical bytes, then the zeroes if they are asked for. */
  function Written(value: seq<nat>, physicalSize: nat, virtualSize: nat, writeVirtual: bool): seq<byte> {
    var image := Image(VirtualStringLength(virtualSize), value);
    image[..Min(physicalSize, |image|)]
    + (if writeVirtual && physicalSize < virtualSize then seq(virtualSize - physicalSize, _ => 0) else [])
  }

  class PackedUtf16String {
    var value: seq<nat>
    var virtualSize: nat
    var physicalSize: nat

    /** The sizes stay in order. */
    ghost predicate SizesFit()
      reads this
    {
      physicalSize <= Min(virtualSize, 2 + 2 * |value|)
    }

    /** A new string has no sizes, whatever its value. */
    constructor (value: seq<nat>)
      ensures this.value == value && virtualSize == 0 == physicalSize && SizesFit()
    {
      this.value, virtualSize, physicalSize := value, 0, 0;
    }

    /** operator=: the size counts units where it should count bytes. */
    method Assign(s: seq<nat>)
      modifies this
      ensures value == s && physicalSize == virtualSize == |s| + 2 && SizesFit()
    {
      value := s;
      physicalSize := |value| + 2;
      virtualSize := physicalSize;
    }

    method SetDataSize(size: nat)
      requires SizesFit()
      modifies this`virtualSize
      ensures SizesFit() && virtualSize == if size < physicalSize then physicalSize else size
    {
      virtualSize := size;
      if virtualSize < physicalSize {
        virtualSize := physicalSize;
      }
    }

    method SetPhysicalSize(size: nat)
      modifies this`physicalSize, this`virtualSize
      ensures SizesFit() && physicalSize == Min(size, 2 + 2 * |value|)
      ensures virtualSize == if old(virtualSize) < physicalSize then physicalSize else old(virtualSize)
    {
      physicalSize := Min(size, 2 + 2 * |value|);
      if virtualSize < physicalSize {
        virtualSize := physicalSize;
      }
    }

    method SyncPhysicalSize()
      requires 2 + 2 * |value| < SIZE_LIMIT
      modifies this`physicalSize, this`virtualSize
      ensures SizesFit() && physicalSize == 2 + 2 * |value|
      ensures virtualSize == if old(virtualSize) < physicalSize then physicalSize else old(virtualSize)
    {
      SetPhysicalSize(SIZE_LIMIT - 1);
    }

    method Deserialize(buf: Cursor, allowVirtual: bool) returns (r: Result<()>)
      requires buf.Valid()
      modifies this, buf`pos
      ensures buf.Valid()
      ensures var f, start := FlatOf(buf.buf), old(buf.pos);
              && (r.Success? <==> Parses(f.bytes, f.physical, start, allowVirtual))
              && (r.Success? ==>
                   var length := LengthAt(f.bytes, start);
                   && value == Units(f.bytes, 2, start + 2, PresentUnits(f.physical, start + 2, length))
                   && virtualSize == 2 + 2 * length && physicalSize == PhysicalPart(f.physical, start, virtualSize)
                   && buf.pos == start + 2 + 2 * UnitsTried(f.physical, start + 2, length)
                   && (buf.pos == start + virtualSize <==> length <= PresentUnits(f.physical, start + 2, length) + 1))
      ensures r.Success? ==> SizesFit()
      ensures r.Failure? ==> value == old(value) && virtualSize == old(virtualSize) && physicalSize == old(physicalSize)
    {
      hide UnitAt, Units, Buffer.WellFormed;
      ghost var v, physical, start := FlatOf(buf.buf).bytes, FlatOf(buf.buf).physical, buf.pos;
      var field := new byte[2](_ => 0);
      var read := buf.Read(2, field, 0);
      if read.Failure? {
        return Failure(read.error);
      }
      UnitRead(v, 2, start, field[..]);
      if !allowVirtual && read.value != 2 {
        return Failure(BufferOverrun);
      }
      var length := UnitAt(field[..], 2, 0);
      var text, index, bytes := ReadUnits(buf, length, read.value, start);
      if text.Failure? {
        return Failure(text.error);
      }
      if !allowVirtual && bytes != 2 + 2 * length {
        return Failure(BufferOverrun);
      }
      value, physicalSize, virtualSize := text.value, bytes, 2 + 2 * length;
      return Success(());
    }

    /** The loop over the units: it ends with the string or with the first unit that has no physical byte. */
    method ReadUnits(buf: Cursor, length: nat, fieldBytes: nat, ghost start: nat)
      returns (r: Result<seq<nat>>, index: nat, physicalBytes: nat)
      requires buf.Valid() && buf.pos == start + 2 && length < 0x1_0000
      requires fieldBytes == PhysicalPart(FlatOf(buf.buf).physical, start, 2)
      modifies buf`pos
      ensures buf.Valid()
      ensures var f := FlatOf(buf.buf);
              && (r.Success? <==> start + 2 + 2 * UnitsTried(f.physical, start + 2, length) <= |f.bytes|)
              && (r.Success? ==>
                   && r.value == Units(f.bytes, 2, start + 2, PresentUnits(f.physical, start + 2, length))
                   && physicalBytes == PhysicalPart(f.physical, start, 2 + 2 * length)
                   && buf.pos == start + 2 + 2 * UnitsTried(f.physical, start + 2, length))
    {
      hide UnitAt, Units, Buffer.WellFormed, PresentUnits, UnitsTried, PhysicalPart;
      ghost var v, physical := FlatOf(buf.buf).bytes, FlatOf(buf.buf).physical;
      var text, ch := new nat[length](_ => 0), new byte[2](_ => 0);
      index, physicalBytes := 0, fieldBytes;
      StartUnits(v, 2, start + 2);
      while index < length
        invariant buf.Valid() && index <= length == text.Length && buf.pos == start + 2 + 2 * index
        invariant text[..index] == Units(v, 2, start + 2, index)
        invariant index > 0 ==> start + 2 * index < physical
        invariant physicalBytes == PhysicalPart(physical, start, 2 + 2 * index)
      {
        ghost var p := buf.pos;
        UnitPresent(physical, start, index, length);
        var read := buf.Read(2, ch, 0);
        if read.Failure? {
          return Failure(read.error), index, physicalBytes;
        }
        if read.value == 0 {
          break;
        }
        ReadWhole(v, physical, 2, p, ch[..], read.value);
        AppendUnit(v, 2, start + 2, index);
        text[index] := UnitAt(ch[..], 2, 0);
        physicalBytes := physicalBytes + read.value;
        index := index + 1;
      }
      if index == length { AllPresent(physical, start, length); }
      r := Success(text[..index]);
    }

    /** The common part of both serialize forms: what the callbacks are handed, in order. */
    method Parts(writeVirtual: bool) returns (r: Result<nat>, written: seq<byte>)
      ensures r.Success? <==> VirtualStringLength(virtualSize) <= 0xFFFF
      ensures r.Success? ==> written == Written(value, physicalSize, virtualSize, writeVirtual)
      ensures r.Success? ==> r.value == if writeVirtual then virtualSize else physicalSize
      ensures r.Failure? ==> r.error == BufferOverrun && written == []
    {
      hide ToBytes;
      var remaining, size := physicalSize, VirtualStringLength(virtualSize);
      if size > 0xFFFF {
        return Failure(BufferOverrun), [];
      }
      var n := Min(remaining, 2);
      written := ToBytes(2, [size])[..n];
      remaining := remaining - n;
      var i: nat := 0;
      PrefixStart(size, value, physicalSize);
      while i < |value|
        invariant i <= |value|
        invariant written == Image(size, value[..i])[..Min(physicalSize, 2 + 2 * i)]
        invariant remaining == physicalSize - Min(physicalSize, 2 + 2 * i)
      {
        if remaining >= 2 {
          n := 2;
        } else if remaining == 1 {
          n := 1;
        } else {
          break;
        }
        PrefixGrows(size, value, i, physicalSize, n);
        written := written + ToBytes(2, [value[i]])[..n];
        remaining := remaining - n;
        i := i + 1;
      }
      PrefixEnds(size, value, i, physicalSize);
      if writeVirtual && physicalSize < virtualSize {
        written := written + seq(virtualSize - physicalSize, _ => 0);
      }
      r := Success(if writeVirtual then virtualSize else physicalSize);
    }

    method Serialize(out: OutputMemory, writeVirtual: bool) returns (r: Result<nat>)
      requires out.Valid()
      modifies out
      ensures out.Valid()
      ensures r.Success? <==> VirtualStringLength(virtualSize) <= 0xFFFF
      ensures r.Success? ==>
        && r.value == (if writeVirtual then virtualSize else physicalSize)
        && out.data == Overwrite(old(out.data), old(out.pos), Written(value, physicalSize, virtualSize, writeVirtual))
        && out.pos == old(out.pos) + |Written(value, physicalSize, virtualSize, writeVirtual)|
      ensures r.Failure? ==> out.data == old(out.data) && out.pos == old(out.pos)
    {
      hide Overwrite, Written;
      var written;
      r, written := Parts(writeVirtual);
      if r.Success? {
        var memory := new byte[|written|](i requires 0 <= i < |written| => written[i]);
        assert memory[..|written|] == written;
        out.Write(|written|, memory);
      }
    }

    /** The form that writes to memory the caller has measured. */
    method SerializeTo(buf: array<byte>, maxSize: nat, writeVirtual: bool) returns (r: Result<nat>)
      requires SizesFit() && maxSize <= buf.Length
      modifies buf
      ensures var size := if writeVirtual then virtualSize else physicalSize;
              r.Success? <==> size <= maxSize && VirtualStringLength(virtualSize) <= 0xFFFF
      ensures r.Success? ==>
        && r.value == |Written(value, physicalSize, virtualSize, writeVirtual)| <= maxSize
        && buf[..] == Written(value, physicalSize, virtualSize, writeVirtual) + old(buf[r.value..])
      ensures r.Failure? ==> buf[..] == old(buf[..])
    {
      hide ToBytes;
      if (if writeVirtual then virtualSize else physicalSize) > maxSize {
        return Failure(BufferOverrun);
      }
      var written;
      r, written := Parts(writeVirtual);
      if r.Success? {
        CopyBytes(buf, 0, written);
      }
    }
  }

  // ---- the prefix the loop of Parts builds ----

  lemma {:induction false} PrefixStart(size: nat, value: seq<nat>, physicalSize: nat)
    ensures ToBytes(2, [size])[..Min(physicalSize, 2)] == Image(size, value[..0])[..Min(physicalSize, 2)]
  {
  }

  lemma {:induction false} ToBytesAppend(s: seq<nat>, u: nat)
    ensures ToBytes(2, s + [u]) == ToBytes(2, s) + ToBytes(2, [u])
  {
  }

  lemma {:induction false} PrefixGrows(size: nat, value: seq<nat>, i: nat, physicalSize: nat, n: nat)
    requires i < |value| && 2 + 2 * i < physicalSize && n == Min(physicalSize - (2 + 2 * i), 2)
    ensures Image(size, value[..i])[..Min(physicalSize, 2 + 2 * i)] + ToBytes(2, [value[i]])[..n]
      == Image(size, value[..i + 1])[..Min(physicalSize, 2 + 2 * (i + 1))]
  {
    hide ToBytes;
    ToBytesAppend(value[..i], value[i]);
    assert value[..i + 1] == value[..i] + [value[i]];
    var image, last := Image(size, value[..i]), ToBytes(2, [value[i]]);
    assert Image(size, value[..i + 1]) == image + last;
    assert image[..2 + 2 * i] == image;
    assert (image + last)[..2 + 2 * i + n] == image + last[..n];
  }

  lemma {:induction false} PrefixEnds(size: nat, value: seq<nat>, i: nat, physicalSize: nat)
    requires i <= |value| && (i < |value| ==> physicalSize <= 2 + 2 * i)
    ensures Image(size, value[..i])[..Min(physicalSize, 2 + 2 * i)]
      == Image(size, value)[..Min(physicalSize, 2 + 2 * |value|)]
    decreases |value| - i
  {
    hide ToBytes;
    if i == |value| {
      assert value[..i] == value;
    } else {
      ToBytesAppend(value[..i], value[i]);
      assert value[..i + 1] == value[..i] + [value[i]];
      assert Image(size, value[..i + 1]) == Image(size, value[..i]) + ToBytes(2, [value[i]]);
      PrefixEnds(size, value, i + 1, physicalSize);
    }
  }

  // ---- parsing and writing ----

  /** n bytes of the view from start on, with as many zeroes behind it as that takes. */
  function PaddedView(v: seq<byte>, start: nat, n: nat): seq<byte> {
    seq(n, i requires 0 <= i < n => if start + i < |v| then v[start + i] else 0)
  }

  /** After a parse, what serialize writes is what the parse read: the physical bytes, an odd last one included, or all
      the string's bytes with the zeroes filled in. */
  lemma {:induction false} WritesBackWhatWasRead(v: seq<byte>, physical: nat, start: nat, writeVirtual: bool)
    requires start + 2 <= |v| && ZeroFrom(v, physical) && physical <= |v|
    requires start + 2 + 2 * UnitsTried(physical, start + 2, LengthAt(v, start)) <= |v|
    ensures var length := LengthAt(v, start);
            var value := Units(v, 2, start + 2, PresentUnits(physical, start + 2, length));
            var size := 2 + 2 * length;
            var physicalSize := PhysicalPart(physical, start, size);
            Written(value, physicalSize, size, writeVirtual) == PaddedView(v, start, if writeVirtual then size else physicalSize)
  {
    hide Image, LengthAt, Units, PaddedView;
    var length := LengthAt(v, start);
    var n, size := PresentUnits(physical, start + 2, length), 2 + 2 * length;
    var value, physicalSize := Units(v, 2, start + 2, n), PhysicalPart(physical, start, size);
    var end := start + 2 + 2 * n;
    ImageRead(v, start, n);
    assert VirtualStringLength(size) == length;
    assert physicalSize <= 2 + 2 * n;
    FrontOfSlice(v, start, end, physicalSize);
    PaddedInParts(v, physical, start, size);
  }

  lemma {:induction false} ImageRead(v: seq<byte>, start: nat, n: nat)
    requires start + 2 + 2 * n <= |v|
    ensures Image(LengthAt(v, start), Units(v, 2, start + 2, n)) == v[start..start + 2 + 2 * n]
  {
    hide ToBytes, UnitAt, Units, LengthAt;
    FieldBytes(v, start);
    UnitsToBytes(v, 2, start + 2, n);
    JoinedAt(v, start, start + 2, start + 2 + 2 * n);
  }

  lemma {:induction false} FrontOfSlice(v: seq<byte>, start: nat, end: nat, n: nat)
    requires start + n <= end <= |v|
    ensures v[start..end][..n] == v[start..start + n]
  {
  }

  lemma {:induction false} FieldBytes(v: seq<byte>, start: nat)
    requires start + 2 <= |v|
    ensures ToBytes(2, [LengthAt(v, start)]) == v[start..start + 2]
  {
  }

  lemma {:induction false} PaddedInParts(v: seq<byte>, physical: nat, start: nat, size: nat)
    requires ZeroFrom(v, physical) && physical <= |v|
    ensures var p := PhysicalPart(physical, start, size);
            && (start + p <= |v| || p == 0)
            && PaddedView(v, start, p) == (if p == 0 then [] else v[start..start + p])
            && PaddedView(v, start, size) == PaddedView(v, start, p) + seq(size - p, _ => 0)
  {
  }

  method ParseThenSerializeUtf16(source: Buffer, pos: nat, allowVirtual: bool, writeVirtual: bool)
    returns (ok: bool, written: seq<byte>, size: nat)
    requires source.WellFormed() && pos <= source.Size()
    ensures var f := FlatOf(source);
            && (ok <==> Parses(f.bytes, f.physical, pos, allowVirtual))
            && (ok ==> written == PaddedView(f.bytes, pos, size))
            && (ok ==> var stringSize := 2 + 2 * LengthAt(f.bytes, pos);
                       size == if writeVirtual then stringSize else PhysicalPart(f.physical, pos, stringSize))
  {
    hide Units, UnitAt, ToBytes, Buffer.WellFormed, Written, Overwrite, PaddedView, LengthAt;
    PhysicalThenZeroes(source);
    var cursor := new Cursor(source);
    var text := new PackedUtf16String([]);
    var out := new OutputMemory([]);
    var moved := cursor.SetRpos(pos);
    var r := text.Deserialize(cursor, allowVirtual);
    ok, written, size := r.Success?, [], 0;
    if ok {
      WritesBackWhatWasRead(FlatOf(source).bytes, FlatOf(source).physical, pos, writeVirtual);
      var n := text.Serialize(out, writeVirtual);
      written, size := out.data, n.value;
      OverwriteEmpty(Written(text.value, text.physicalSize, text.virtualSize, writeVirtual));
    }
  }

  /** Two wholly virtual units: the string takes six bytes, but the cursor stops after the first unit, at four. */
  method CursorBeforeVirtualEnd() returns (ok: bool, consumed: nat, size: nat)
    ensures ok && consumed == 4 && size == 6
  {
    hide Units;
    var source := Virtual(Container([2, 0], 0, 0), 4);
    assert source.inner.WellFormed() && source.inner.Size() == 2;
    assert FlatOf(source).bytes == [2, 0, 0, 0, 0, 0] && FlatOf(source).physical == 2;
    var cursor := new Cursor(source);
    var text := new PackedUtf16String([]);
    var r := text.Deserialize(cursor, true);
    ok, consumed, size := r.Success?, cursor.pos, text.virtualSize;
  }

  ghost predicate Utf16(s: seq<nat>) {
    forall i :: 0 <= i < |s| ==> s[i] < 0x1_0000
  }

  lemma {:induction false} LengthOfImage(length: nat, rest: seq<byte>)
    requires length < 0x1_0000
    ensures LengthAt(ToBytes(2, [length]) + rest, 0) == length
  {
  }

  lemma {:induction false} UnitsOfBytes(front: seq<byte>, s: seq<nat>, rest: seq<byte>)
    requires Utf16(s)
    ensures Units(front + ToBytes(2, s) + rest, 2, |front|, |s|) == s
  {
    hide ToBytes, Units, UnitAt, UnitBytes;
    if |s| == 0 {
      NoUnits(front + ToBytes(2, s) + rest, |front|);
    } else {
      var s', u := s[..|s| - 1], s[|s| - 1];
      var last := UnitBytes(2, u);
      assert s == s' + [u];
      AppendBytes(2, s', u);
      var v, p := front + ToBytes(2, s) + rest, |front| + 2 * |s'|;
      LastPart(front, ToBytes(2, s'), last, rest);
      UnitsOfBytes(front, s', last + rest);
      UnitOfBytes(v, p, u);
      AppendUnit(v, 2, |front|, |s'|);
    }
  }

  lemma {:induction false} NoUnits(v: seq<byte>, p: nat)
    requires p <= |v|
    ensures Units(v, 2, p, 0) == []
  {
  }

  lemma {:induction false} LastPart(front: seq<byte>, a: seq<byte>, last: seq<byte>, rest: seq<byte>)
    ensures var v, p := front + (a + last) + rest, |front| + |a|;
            v == front + a + (last + rest) && v[p..p + |last|] == last
  {
  }

  lemma {:induction false} UnitOfBytes(v: seq<byte>, p: nat, u: nat)
    requires u < 0x1_0000 && p + 2 <= |v| && v[p..p + 2] == UnitBytes(2, u)
    ensures UnitAt(v, 2, p) == u
  {
    assert v[p] == v[p..p + 2][0] && v[p + 1] == v[p..p + 2][1];
  }

  /** Writing s with its sizes in step and parsing it again. */
  method StoreThenParse(s: seq<nat>, allowVirtual: bool) returns (ok: bool, parsed: seq<nat>)
    requires Utf16(s) && 2 + 2 * |s| < SIZE_LIMIT
    ensures ok <==> |s| <= 0xFFFF
    ensures ok ==> parsed == s
  {
    hide ToBytes, Units, LengthAt;
    var text := new PackedUtf16String(s);
    text.SyncPhysicalSize();
    var out := new OutputMemory([]);
    var r := text.Serialize(out, false);
    ok, parsed := r.Success?, [];
    if ok {
      FullImage(s);
      assert out.data == Image(|s|, s);
      ok, parsed := ParseAll(out.data, allowVirtual);
    }
  }

  lemma {:induction false} FullImage(s: seq<nat>)
    requires Utf16(s) && |s| <= 0xFFFF
    ensures Written(s, 2 + 2 * |s|, 2 + 2 * |s|, false) == Image(|s|, s)
    ensures LengthAt(Image(|s|, s), 0) == |s| && Units(Image(|s|, s), 2, 2, |s|) == s
  {
    hide ToBytes, Units, LengthAt;
    LengthOfImage(|s|, ToBytes(2, s));
    UnitsOfBytes(ToBytes(2, [|s|]), s, []);
    assert Image(|s|, s) + [] == Image(|s|, s);
  }

  method ParseAll(bytes: seq<byte>, allowVirtual: bool) returns (ok: bool, value: seq<nat>)
    requires 2 <= |bytes| < SIZE_LIMIT
    ensures ok <==> Parses(bytes, |bytes|, 0, allowVirtual)
    ensures ok ==> value == Units(bytes, 2, 2, PresentUnits(|bytes|, 2, LengthAt(bytes, 0)))
  {
    hide Units, LengthAt;
    var cursor := new Cursor(Container(bytes, 0, 0));
    var text := new PackedUtf16String([]);
    var r := text.Deserialize(cursor, allowVirtual);
    ok, value := r.Success?, text.value;
  }

  /** Assigning s, writing and parsing gives s back exactly when s is empty: operator= counts units, so half the string
      is lost. */
  method AssignThenParseIff(s: seq<nat>, allowVirtual: bool) returns (ok: bool, parsed: seq<nat>)
    requires Utf16(s) && 2 + 2 * |s| < SIZE_LIMIT
    ensures (ok && parsed == s) <==> s == []
    ensures ok ==> |parsed| == |s| / 2
  {
    hide ToBytes, Units, LengthAt;
    var text := new PackedUtf16String([]);
    text.Assign(s);
    var out := new OutputMemory([]);
    var r := text.Serialize(out, false);
    ok, parsed := r.Success?, [];
    if ok {
      HalfImage(s);
      assert out.data == Image(|s| / 2, s)[..|s| + 2];
      ok, parsed := ParseAll(out.data, allowVirtual);
    }
  }

  lemma {:induction false} HalfImage(s: seq<nat>)
    requires |s| / 2 <= 0xFFFF
    ensures Written(s, |s| + 2, |s| + 2, false) == Image(|s| / 2, s)[..|s| + 2]
    ensures LengthAt(Image(|s| / 2, s)[..|s| + 2], 0) == |s| / 2
  {
  }
}
