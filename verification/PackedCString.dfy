/** packed_c_string (pe_bliss2/src/packed_c_string.cpp) for units of one and two bytes: the terminator may lie in the
    zeroes behind the physical bytes. */
module PackedCStrings {
  import opened Arithmetic
  import opened InputBuffers
  import opened BufferStreams

  /** The bytes of n units. */
  function Bytes(unit: nat, n: nat): nat {
    if unit == 1 then n else n + n
  }

  /** The little-endian unit at p. */
  function UnitAt(v: seq<byte>, unit: nat, p: nat): (u: nat)
    requires 1 <= unit <= 2 && p + unit <= |v|
    ensures u < 0x1_0000
  {
    if unit == 1 then v[p] else (v[p] as nat) + 256 * (v[p + 1] as nat)
  }

  /** How many units from pos on come before the first one that is zero; -1 if the view ends first. */
  function FirstNul(v: seq<byte>, unit: nat, pos: nat): (k: int)
    requires 1 <= unit <= 2
    ensures k >= -1
    ensures k >= 0 ==> pos + Bytes(unit, k + 1) <= |v|
    decreases |v| - pos
  {
    if pos + unit > |v| then -1
    else if UnitAt(v, unit, pos) == 0 then 0
    else
      var rest := FirstNul(v, unit, pos + unit);
      if rest < 0 then -1 else rest + 1
  }

  /** The n units from pos on. */
  function Units(v: seq<byte>, unit: nat, pos: nat, n: nat): (s: seq<nat>)
    requires 1 <= unit <= 2 && pos + Bytes(unit, n) <= |v|
    ensures |s| == n
  {
    if n == 0 then [] else Units(v, unit, pos, n - 1) + [UnitAt(v, unit, pos + Bytes(unit, n - 1))]
  }

  /** FirstNul means what it says: the unit it names is zero and none before it is. */
  lemma {:induction false} FirstNulIsFirst(v: seq<byte>, unit: nat, pos: nat, i: nat)
    requires 1 <= unit <= 2
    ensures FirstNul(v, unit, pos) >= 0 && i < FirstNul(v, unit, pos) ==>
      pos + Bytes(unit, i + 1) <= |v| && UnitAt(v, unit, pos + Bytes(unit, i)) != 0
    ensures i == FirstNul(v, unit, pos) ==> UnitAt(v, unit, pos + Bytes(unit, i)) == 0
    ensures FirstNul(v, unit, pos) == -1 && pos + Bytes(unit, i + 1) <= |v| ==>
      UnitAt(v, unit, pos + Bytes(unit, i)) != 0
    decreases i
  {
    if pos + unit <= |v| && UnitAt(v, unit, pos) != 0 && i > 0 {
      FirstNulIsFirst(v, unit, pos + unit, i - 1);
      assert pos + unit + Bytes(unit, i - 1) == pos + Bytes(unit, i);
    }
  }

  /** Passing a unit that is not zero. */
  lemma {:induction false} PassUnit(v: seq<byte>, unit: nat, start: nat, n: nat)
    requires 1 <= unit <= 2 && start + Bytes(unit, n + 1) <= |v|
    requires UnitAt(v, unit, start + Bytes(unit, n)) != 0
    requires FirstNul(v, unit, start) == Later(FirstNul(v, unit, start + Bytes(unit, n)), n)
    ensures FirstNul(v, unit, start) == Later(FirstNul(v, unit, start + Bytes(unit, n + 1)), n + 1)
  {
  }

  function Later(k: int, n: nat): int {
    if k < 0 then -1 else k + n
  }

  /** The string is accepted: its terminator is in range, within the limit, and physical unless virtual data is allowed. */
  predicate Accepted(v: seq<byte>, physical: nat, unit: nat, pos: nat, allowVirtual: bool, limit: nat)
    requires 1 <= unit <= 2
  {
    var k := FirstNul(v, unit, pos);
    k >= 0 && Bytes(unit, k + 1) <= limit && (allowVirtual || pos + Bytes(unit, k + 1) <= physical)
  }

  /** A string is accepted exactly if there is a unit that is zero, behind none that is, in range, within the limit and,
      unless virtual data is allowed, physical. */
  lemma {:induction false} AcceptedIff(v: seq<byte>, physical: nat, unit: nat, pos: nat, allowVirtual: bool, limit: nat)
    requires 1 <= unit <= 2
    ensures Accepted(v, physical, unit, pos, allowVirtual, limit) <==>
      exists k: nat :: Ends(v, unit, pos, k) && Bytes(unit, k + 1) <= limit
        && (allowVirtual || pos + Bytes(unit, k + 1) <= physical)
  {
    hide FirstNul, UnitAt;
    var k := FirstNul(v, unit, pos);
    if k >= 0 {
      forall i: nat | i <= k ensures (i < k ==> UnitAt(v, unit, pos + Bytes(unit, i)) != 0)
          && (i == k ==> UnitAt(v, unit, pos + Bytes(unit, i)) == 0)
      {
        FirstNulIsFirst(v, unit, pos, i);
      }
      assert Ends(v, unit, pos, k);
    }
    forall i: nat | Ends(v, unit, pos, i) ensures i == k {
      FirstNulIsFirst(v, unit, pos, i);
    }
  }

  /** Unit k from pos on is zero and none before it is. */
  ghost predicate Ends(v: seq<byte>, unit: nat, pos: nat, k: nat)
    requires 1 <= unit <= 2
  {
    && pos + Bytes(unit, k + 1) <= |v| && UnitAt(v, unit, pos + Bytes(unit, k)) == 0
    && forall i: nat :: i < k ==> UnitAt(v, unit, pos + Bytes(unit, i)) != 0
  }

  /** Two-byte units have their low byte first. */
  lemma {:induction false} LowByteFirst()
    ensures UnitAt([0x41, 0x00, 0x3B, 0x20], 2, 0) == 'A' as nat && UnitAt([0x41, 0x00, 0x3B, 0x20], 2, 2) == 0x203B
    ensures ToBytes(2, [0x41, 0x203B]) == [0x41, 0x00, 0x3B, 0x20]
  {
    assert [0x41, 0x203B][..1] == [0x41];
    assert [0x41][..0] == [];
  }

  /** No unit that reaches past the physical bytes can be part of a physical string. */
  lemma {:induction false} RefusedWithoutVirtual(v: seq<byte>, physical: nat, unit: nat, start: nat, n: nat, limit: nat)
    requires 1 <= unit <= 2 && FirstNul(v, unit, start) == Later(FirstNul(v, unit, start + Bytes(unit, n)), n)
    requires start + Bytes(unit, n + 1) > physical
    ensures !Accepted(v, physical, unit, start, false, limit)
  {
    hide FirstNul;
  }

  lemma {:induction false} RefusedByLimit(v: seq<byte>, physical: nat, unit: nat, start: nat, n: nat,
      allowVirtual: bool, limit: nat)
    requires 1 <= unit <= 2 && FirstNul(v, unit, start) == Later(FirstNul(v, unit, start + Bytes(unit, n)), n)
    requires limit < Bytes(unit, n + 1)
    ensures !Accepted(v, physical, unit, start, allowVirtual, limit)
  {
    hide FirstNul;
  }

  lemma {:induction false} RefusedByEnd(v: seq<byte>, physical: nat, unit: nat, start: nat, n: nat,
      allowVirtual: bool, limit: nat)
    requires 1 <= unit <= 2 && FirstNul(v, unit, start) == Later(FirstNul(v, unit, start + Bytes(unit, n)), n)
    requires |v| < start + Bytes(unit, n + 1)
    ensures !Accepted(v, physical, unit, start, allowVirtual, limit)
  {
  }

  lemma {:induction false} Found(v: seq<byte>, unit: nat, start: nat, n: nat)
    requires 1 <= unit <= 2 && FirstNul(v, unit, start) == Later(FirstNul(v, unit, start + Bytes(unit, n)), n)
    requires start + Bytes(unit, n + 1) <= |v| && UnitAt(v, unit, start + Bytes(unit, n)) == 0
    ensures FirstNul(v, unit, start) == n
  {
  }

  lemma {:induction false} AppendUnit(v: seq<byte>, unit: nat, start: nat, n: nat)
    requires 1 <= unit <= 2 && start + Bytes(unit, n + 1) <= |v|
    ensures Units(v, unit, start, n + 1) == Units(v, unit, start, n) + [UnitAt(v, unit, start + Bytes(unit, n))]
  {
  }

  /** The unit just read. */
  lemma {:induction false} UnitRead(v: seq<byte>, unit: nat, p: nat, temp: seq<byte>)
    requires 1 <= unit <= 2 && p + unit <= |v| && |temp| == unit && temp == v[p..p + unit]
    ensures UnitAt(temp, unit, 0) == UnitAt(v, unit, p)
  {
  }

  lemma {:induction false} ZeroUnit(v: seq<byte>, physical: nat, unit: nat, p: nat)
    requires 1 <= unit <= 2 && p + unit <= |v| && ZeroFrom(v, physical) && p >= physical
    ensures UnitAt(v, unit, p) == 0
  {
  }

  /** Units as little-endian bytes. */
  function ToBytes(unit: nat, s: seq<nat>): (b: seq<byte>)
    requires 1 <= unit <= 2
    ensures |b| == Bytes(unit, |s|)
  {
    if |s| == 0 then []
    else
      ToBytes(unit, s[..|s| - 1]) + UnitBytes(unit, s[|s| - 1])
  }

  function UnitBytes(unit: nat, u: nat): (b: seq<byte>)
    requires 1 <= unit <= 2
    ensures |b| == unit
  {
    if unit == 1 then [u % 256] else [u % 256, u / 256 % 256]
  }

  lemma {:induction false} ZeroUnitBytes(unit: nat)
    requires 1 <= unit <= 2
    ensures ToBytes(unit, [0]) == if unit == 1 then [0] else [0, 0]
  {
    assert [0][..0] == [];
  }

  /** Writing units gives back the bytes they were read from. */
  lemma {:induction false} UnitsToBytes(v: seq<byte>, unit: nat, pos: nat, n: nat)
    requires 1 <= unit <= 2 && pos + Bytes(unit, n) <= |v|
    ensures ToBytes(unit, Units(v, unit, pos, n)) == v[pos..pos + Bytes(unit, n)]
  {
    hide UnitAt, UnitBytes, Units, ToBytes;
    if n == 0 {
      NoUnitBytes(v, unit, pos);
    } else {
      var p := pos + Bytes(unit, n - 1);
      UnitsToBytes(v, unit, pos, n - 1);
      AppendUnit(v, unit, pos, n - 1);
      AppendBytes(unit, Units(v, unit, pos, n - 1), UnitAt(v, unit, p));
      LastUnitBytes(v, unit, p);
      JoinedAt(v, pos, p, p + unit);
    }
  }

  lemma {:induction false} NoUnitBytes(v: seq<byte>, unit: nat, pos: nat)
    requires 1 <= unit <= 2 && pos <= |v|
    ensures ToBytes(unit, Units(v, unit, pos, 0)) == [] == v[pos..pos]
  {
  }

  lemma {:induction false} AppendBytes(unit: nat, s: seq<nat>, u: nat)
    requires 1 <= unit <= 2
    ensures ToBytes(unit, s + [u]) == ToBytes(unit, s) + UnitBytes(unit, u)
  {
    hide UnitBytes;
    assert (s + [u])[..|s|] == s;
  }

  lemma {:induction false} JoinedAt(v: seq<byte>, a: nat, b: nat, c: nat)
    requires a <= b <= c <= |v|
    ensures v[a..b] + v[b..c] == v[a..c]
  {
  }

  lemma {:induction false} LastUnitBytes(v: seq<byte>, unit: nat, p: nat)
    requires 1 <= unit <= 2 && p + unit <= |v|
    ensures UnitBytes(unit, UnitAt(v, unit, p)) == v[p..p + unit]
  {
    if unit == 2 { TwoBytes(v[p], v[p + 1]); }
  }

  lemma {:induction false} TwoBytes(a: byte, b: byte)
    ensures (a + 256 * b) % 256 == a && (a + 256 * b) / 256 % 256 == b
  {
    DivModUnique(a + 256 * b, 256, b, a);
  }

  class PackedCString {
    const unit: nat
    var value: seq<nat>
    var virtualNullbyte: bool

    constructor (unit: nat)
      ensures this.unit == unit && value == [] && !virtualNullbyte
    {
      this.unit, value, virtualNullbyte := unit, [], false;
    }

    method Deserialize(buf: Cursor, allowVirtual: bool, maxPhysicalSize: nat) returns (r: Result<()>)
      requires 1 <= unit <= 2 && buf.Valid() && maxPhysicalSize < SIZE_LIMIT
      modifies this, buf`pos
      ensures buf.Valid()
      ensures var f, start := FlatOf(buf.buf), old(buf.pos);
              && (r.Success? <==> Accepted(f.bytes, f.physical, unit, start, allowVirtual, maxPhysicalSize))
              && (r.Success? ==>
                   var k := FirstNul(f.bytes, unit, start);
                   && value == Units(f.bytes, unit, start, k)
                   && buf.pos == start + Bytes(unit, k + 1)
                   && virtualNullbyte == (buf.pos > f.physical))
      ensures r.Failure? ==> value == old(value) && virtualNullbyte == old(virtualNullbyte)
    {
      hide FirstNul, Units, UnitAt, Accepted, Later, ZeroFrom, PhysicalPart, Buffer.WellFormed;
      ghost var v, physical, start := FlatOf(buf.buf).bytes, FlatOf(buf.buf).physical, buf.pos;
      PhysicalThenZeroes(buf.buf);
      var ch := new byte[unit](_ => 0);
      var text: seq<nat>, left: nat, readBytes: nat := [], maxPhysicalSize, 0;
      StartUnits(v, unit, start);
      while true
        invariant buf.Valid() && buf.pos == start + Bytes(unit, |text|) <= |v|
        invariant text == Units(v, unit, start, |text|) && left == maxPhysicalSize - Bytes(unit, |text|)
        invariant FirstNul(v, unit, start) == Later(FirstNul(v, unit, start + Bytes(unit, |text|)), |text|)
        invariant value == old(value) && virtualNullbyte == old(virtualNullbyte)
        decreases |v| - buf.pos
      {
        ghost var n := |text|;
        var read, u := ReadUnit(buf, unit, ch);
        if read.Failure? {
          RefusedByEnd(v, physical, unit, start, n, allowVirtual, maxPhysicalSize);
          return Failure(read.error);
        }
        readBytes := read.value;
        if readBytes != unit {
          r := FinishVirtual(buf, allowVirtual, text, left, readBytes, u, start, maxPhysicalSize);
          return;
        }
        if left < unit {
          RefusedByLimit(v, physical, unit, start, n, allowVirtual, maxPhysicalSize);
          return Failure(BufferOverrun);
        }
        left := left - unit;
        if u == 0 {
          Found(v, unit, start, n);
          NowAccepted(v, physical, unit, start, n, allowVirtual, maxPhysicalSize);
          value, virtualNullbyte := text, false;
          return Success(());
        }
        PassUnit(v, unit, start, n);
        AppendUnit(v, unit, start, n);
        text := text + [u];
      }
    }

    /** The next unit, and how many of its bytes are physical. */
    static method ReadUnit(buf: Cursor, unit: nat, ch: array<byte>) returns (read: Result<nat>, u: nat)
      requires 1 <= unit <= 2 && buf.Valid() && ch.Length == unit
      modifies buf`pos, ch
      ensures buf.Valid()
      ensures var v, physical := FlatOf(buf.buf).bytes, FlatOf(buf.buf).physical;
              && (read.Success? <==> old(buf.pos) + unit <= |v|)
              && (read.Success? ==>
                   && buf.pos == old(buf.pos) + unit <= |v| && u == UnitAt(v, unit, old(buf.pos))
                   && read.value == PhysicalPart(physical, old(buf.pos), unit) <= unit
                   && (read.value == unit <==> buf.pos <= physical))
    {
      hide UnitAt, PhysicalPart, Buffer.WellFormed;
      ghost var p := buf.pos;
      read := buf.Read(unit, ch, 0);
      u := UnitAt(ch[..], unit, 0);
      if read.Success? {
        ReadWhole(FlatOf(buf.buf).bytes, FlatOf(buf.buf).physical, unit, p, ch[..], read.value);
      }
    }

    /** After a unit that is not wholly physical: it is the terminator, or, if it is not zero, the next one is. */
    method FinishVirtual(buf: Cursor, allowVirtual: bool, text: seq<nat>, left: nat, readBytes: nat, u: nat,
        ghost start: nat, ghost limit: nat) returns (r: Result<()>)
      requires 1 <= unit <= 2 && buf.Valid()
      requires var v, physical, n := FlatOf(buf.buf).bytes, FlatOf(buf.buf).physical, |text|;
               && buf.pos == start + Bytes(unit, n + 1) <= |v| && readBytes < unit
               && text == Units(v, unit, start, n) && left == limit - Bytes(unit, n)
               && FirstNul(v, unit, start) == Later(FirstNul(v, unit, start + Bytes(unit, n)), n)
               && u == UnitAt(v, unit, start + Bytes(unit, n))
               && readBytes == PhysicalPart(physical, start + Bytes(unit, n), unit)
      modifies this, buf`pos
      ensures buf.Valid()
      ensures var f := FlatOf(buf.buf);
              && (r.Success? <==> Accepted(f.bytes, f.physical, unit, start, allowVirtual, limit))
              && (r.Success? ==>
                   var k := FirstNul(f.bytes, unit, start);
                   && value == Units(f.bytes, unit, start, k)
                   && buf.pos == start + Bytes(unit, k + 1)
                   && virtualNullbyte && buf.pos > f.physical)
      ensures r.Failure? ==> value == old(value) && virtualNullbyte == old(virtualNullbyte)
    {
      hide FirstNul, Units, UnitAt, Accepted, Later, ZeroFrom, Buffer.WellFormed;
      ghost var v, physical, n := FlatOf(buf.buf).bytes, FlatOf(buf.buf).physical, |text|;
      PhysicalThenZeroes(buf.buf);
      if !allowVirtual {
        RefusedWithoutVirtual(v, physical, unit, start, n, limit);
        return Failure(BufferOverrun);
      }
      if left < unit {
        RefusedByLimit(v, physical, unit, start, n, allowVirtual, limit);
        return Failure(BufferOverrun);
      }
      var whole, rest := text, left;
      if readBytes > 0 && u != 0 {
        PassUnit(v, unit, start, n);
        AppendUnit(v, unit, start, n);
        whole := whole + [u];
        var moved := buf.AdvanceRpos(unit);
        if moved.Failure? {
          RefusedByEnd(v, physical, unit, start, n + 1, allowVirtual, limit);
          return Failure(moved.error);
        }
        rest := rest - unit;
        if rest < unit {
          RefusedByLimit(v, physical, unit, start, n + 1, allowVirtual, limit);
          return Failure(BufferOverrun);
        }
        ZeroUnit(v, physical, unit, start + Bytes(unit, n + 1));
      } else if readBytes == 0 {
        ZeroUnit(v, physical, unit, start + Bytes(unit, n));
      }
      Found(v, unit, start, |whole|);
      NowAccepted(v, physical, unit, start, |whole|, allowVirtual, limit);
      value, virtualNullbyte := whole, true;
      return Success(());
    }

    /** What serialize writes. */
    function Serialized(writeVirtual: bool): seq<byte>
      requires 1 <= unit <= 2
      reads this
    {
      ToBytes(unit, value) + (if !virtualNullbyte || writeVirtual then ToBytes(unit, [0]) else [])
    }

    /** The terminator is written if it was physical or virtual bytes are asked for. */
    lemma {:induction false} SerializedMeans(writeVirtual: bool)
      requires 1 <= unit <= 2
      ensures var bytes, n := Serialized(writeVirtual), Bytes(unit, |value|);
              && bytes[..n] == ToBytes(unit, value)
              && |bytes| == (if virtualNullbyte && !writeVirtual then n else n + unit)
              && forall i :: n <= i < |bytes| ==> bytes[i] == 0
    {
      hide ToBytes;
      ZeroUnitBytes(unit);
    }

    method Serialize(out: OutputMemory, writeVirtual: bool) returns (size: nat)
      requires 1 <= unit <= 2 && out.Valid()
      modifies out
      ensures out.Valid() && size == |Serialized(writeVirtual)| && out.pos == old(out.pos) + size
      ensures out.data == Overwrite(old(out.data), old(out.pos), Serialized(writeVirtual))
    {
      hide ToBytes, Overwrite;
      var bytes := Serialized(writeVirtual);
      size := |bytes|;
      var memory := new byte[size](i requires 0 <= i < |bytes| => bytes[i]);
      assert memory[..size] == bytes;
      out.Write(size, memory);
    }

    /** The form that writes to memory the caller has measured. */
    method SerializeTo(buf: array<byte>, maxSize: nat, writeVirtual: bool) returns (r: Result<nat>)
      requires 1 <= unit <= 2 && maxSize <= buf.Length
      modifies buf
      ensures var bytes := Serialized(writeVirtual);
              && r == (if |bytes| > maxSize then Failure(BufferOverrun) else Success(|bytes|))
              && buf[..] == if r.Success? then bytes + old(buf[|bytes|..]) else old(buf[..])
    {
      hide ToBytes;
      var bytes := Serialized(writeVirtual);
      if |bytes| > maxSize {
        return Failure(BufferOverrun);
      }
      CopyBytes(buf, 0, bytes);
      return Success(|bytes|);
    }
  }

  lemma {:induction false} StartUnits(v: seq<byte>, unit: nat, start: nat)
    requires 1 <= unit <= 2 && start <= |v|
    ensures Units(v, unit, start, 0) == [] && FirstNul(v, unit, start) == Later(FirstNul(v, unit, start), 0)
  {
  }

  lemma {:induction false} NowAccepted(v: seq<byte>, physical: nat, unit: nat, start: nat, n: nat,
      allowVirtual: bool, limit: nat)
    requires 1 <= unit <= 2 && FirstNul(v, unit, start) == n && Bytes(unit, n + 1) <= limit
    requires allowVirtual || start + Bytes(unit, n + 1) <= physical
    ensures Accepted(v, physical, unit, start, allowVirtual, limit)
  {
    hide FirstNul;
  }

  /** What a successful read of one unit leaves in ch. */
  lemma {:induction false} ReadWhole(v: seq<byte>, physical: nat, unit: nat, p: nat, ch: seq<byte>, readBytes: nat)
    requires 1 <= unit <= 2 && p + unit <= |v| && |ch| == unit && ch == [] + v[p..p + unit] + []
    requires readBytes == PhysicalPart(physical, p, unit)
    ensures UnitAt(ch, unit, 0) == UnitAt(v, unit, p)
    ensures readBytes <= unit && (readBytes == unit <==> p + unit <= physical)
  {
    assert ch == v[p..p + unit];
    UnitRead(v, unit, p, ch);
  }

  /** What parsing and writing gives back: the bytes consumed, without the terminator if that is not wholly physical and
      virtual bytes are not asked for. */
  ghost function BytesGivenBack(f: Flat, unit: nat, pos: nat, writeVirtual: bool): seq<byte>
    requires 1 <= unit <= 2 && FirstNul(f.bytes, unit, pos) >= 0
  {
    var k := FirstNul(f.bytes, unit, pos);
    if writeVirtual || pos + Bytes(unit, k + 1) <= f.physical then f.bytes[pos..pos + Bytes(unit, k + 1)]
    else f.bytes[pos..pos + Bytes(unit, k)]
  }

  /** Parsing, then writing in both forms, for either setting of the virtual part. */
  method ParseThenSerialize(source: Buffer, pos: nat, unit: nat, allowVirtual: bool, limit: nat, writeVirtual: bool,
      room: nat) returns (written: seq<byte>, memory: array<byte>, measured: Result<nat>, ok: bool)
    requires 1 <= unit <= 2 && source.WellFormed() && pos <= source.Size() && limit < SIZE_LIMIT
    ensures var f := FlatOf(source);
            && (ok <==> Accepted(f.bytes, f.physical, unit, pos, allowVirtual, limit))
            && (ok ==>
                 var given := BytesGivenBack(f, unit, pos, writeVirtual);
                 && written == given && memory.Length == room
                 && measured == (if |given| <= room then Success(|given|) else Failure(BufferOverrun))
                 && (|given| <= room ==> memory[..|given|] == given))
  {
    hide FirstNul, Units, Accepted, ToBytes, Buffer.WellFormed, Buffer.VirtualSize, FlatOf, Overwrite,
      PackedCString.Serialized, BytesGivenBack;
    var cursor := new Cursor(source);
    var text := new PackedCString(unit);
    var out := new OutputMemory([]);
    memory := new byte[room](_ => 0);
    var moved := cursor.SetRpos(pos);
    var r := text.Deserialize(cursor, allowVirtual, limit);
    ok, written, measured := r.Success?, [], Failure(BufferOverrun);
    if ok {
      ghost var given := text.Serialized(writeVirtual);
      WritesBack(FlatOf(source), unit, pos, text, writeVirtual);
      var size := text.Serialize(out, writeVirtual);
      written := out.data;
      OverwriteEmpty(given);
      measured := text.SerializeTo(memory, room, writeVirtual);
    }
  }

  lemma {:induction false} WritesBack(f: Flat, unit: nat, pos: nat, text: PackedCString, writeVirtual: bool)
    requires 1 <= unit <= 2 && text.unit == unit && FirstNul(f.bytes, unit, pos) == |text.value|
    requires text.value == Units(f.bytes, unit, pos, |text.value|)
    requires text.virtualNullbyte == (pos + Bytes(unit, |text.value| + 1) > f.physical)
    ensures text.Serialized(writeVirtual) == BytesGivenBack(f, unit, pos, writeVirtual)
  {
    hide FirstNul, Units, ToBytes;
    UnitsToBytes(f.bytes, unit, pos, |text.value|);
    WithTerminator(f.bytes, unit, pos, text.value);
  }

  lemma {:induction false} WithTerminator(v: seq<byte>, unit: nat, pos: nat, value: seq<nat>)
    requires 1 <= unit <= 2 && FirstNul(v, unit, pos) == |value| && value == Units(v, unit, pos, |value|)
    ensures ToBytes(unit, value) + ToBytes(unit, [0]) == v[pos..pos + Bytes(unit, |value| + 1)]
  {
    hide FirstNul, Units, ToBytes;
    UnitsToBytes(v, unit, pos, |value|);
    FirstNulIsFirst(v, unit, pos, |value|);
    AppendUnit(v, unit, pos, |value|);
    var p := pos + Bytes(unit, |value|);
    ZeroBytes(v, unit, p);
    assert v[pos..p] + v[p..p + unit] == v[pos..pos + Bytes(unit, |value| + 1)];
  }

  lemma {:induction false} ZeroBytes(v: seq<byte>, unit: nat, p: nat)
    requires 1 <= unit <= 2 && p + unit <= |v| && UnitAt(v, unit, p) == 0
    ensures ToBytes(unit, [0]) == v[p..p + unit]
  {
    assert [0][..0] == [];
  }
}
