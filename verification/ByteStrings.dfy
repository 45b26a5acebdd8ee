/** Byte strings as big-endian numbers. */
module ByteStrings {
  import opened Arithmetic

  function Zeros(n: nat): (z: seq<byte>)
    ensures |z| == n
  {
    seq(n, _ => 0)
  }

  /** The k low bytes of v, most significant first. */
  function BigEndian(v: nat, k: nat): (s: seq<byte>)
    ensures |s| == k
  {
    if k == 0 then [] else BigEndian(v / 256, k - 1) + [v % 256]
  }

  /** The number a byte string denotes, continuing from acc. */
  function Value(acc: nat, s: seq<byte>): nat {
    if |s| == 0 then acc else Value(acc, s[..|s| - 1]) * 256 + s[|s| - 1]
  }

  lemma {:induction false} ValueConcat(acc: nat, a: seq<byte>, b: seq<byte>)
    ensures Value(acc, a + b) == Value(Value(acc, a), b)
  {
    if |b| == 0 {
      assert a + b == a;
    } else {
      ValueConcat(acc, a, b[..|b| - 1]);
      assert (a + b)[..|a + b| - 1] == a + b[..|b| - 1];
    }
  }

  /** The first byte counts first. */
  lemma {:induction false} ValueFirst(acc: nat, s: seq<byte>)
    requires |s| > 0
    ensures Value(acc, s) == Value(acc * 256 + s[0], s[1..])
  {
    assert s == [s[0]] + s[1..] && [s[0]][..0] == [];
    ValueConcat(acc, [s[0]], s[1..]);
    assert Value(acc, [s[0]]) == acc * 256 + s[0];
  }

  /** v * 256^k. */
  function ShiftBytes(v: nat, k: nat): (r: nat)
    ensures r >= v
  {
    if k == 0 then v else ShiftBytes(v, k - 1) * 256
  }

  /** A number that fits its bytes is the number they denote. */
  lemma {:induction false} ValueOfBigEndian(v: nat, k: nat)
    requires v < ShiftBytes(1, k)
    ensures Value(0, BigEndian(v, k)) == v
  {
    if k > 0 {
      ValueOfBigEndian(v / 256, k - 1);
      var s := BigEndian(v, k);
      assert s[..k - 1] == BigEndian(v / 256, k - 1);
    }
  }

  /** Shifting by bytes is shifting by eight bits each. */
  lemma {:induction false} ByteShift(v: nat, k: nat)
    ensures ShiftBytes(v, k) == Shl(v, 8 * k)
  {
    if k > 0 {
      ByteShift(v, k - 1);
      ShlShl(v, 8 * (k - 1), 8);
      EightDoublings(Shl(v, 8 * (k - 1)));
    }
  }

  lemma {:induction false} EightDoublings(v: int)
    ensures Shl(v, 8) == 256 * v
  {
    ShlIsMul(v, 8);
    PowersOfTwo();
  }

  lemma {:induction false} EightHalvings(v: nat)
    ensures Shr(v, 3) == v / 8 && Shr(v, 6) == v / 64 && Shr(v, 7) == v / 128 && Shr(v, 8) == v / 256
  {
    assert Shr(v, 1) == v / 2;
    assert Shr(v, 2) == v / 4;
    assert Shr(v, 3) == v / 8;
    assert Shr(v, 4) == v / 16;
    assert Shr(v, 5) == v / 32;
    assert Shr(v, 6) == v / 64;
    assert Shr(v, 7) == v / 128;
  }

  /** Byte i of k is the number without its k - 1 - i low bytes, modulo 256. */
  lemma {:induction false} BigEndianByte(v: nat, k: nat, i: nat)
    requires i < k
    ensures BigEndian(v, k)[i] == Shr(v, 8 * (k - 1 - i)) % 256
  {
    if i < k - 1 {
      BigEndianByte(v / 256, k - 1, i);
      EightHalvings(v);
      ShrShr(v, 8, 8 * (k - 2 - i));
    }
  }

  /** The pieces, one after the other. */
  function Joined(pieces: seq<seq<byte>>): seq<byte> {
    if |pieces| == 0 then [] else Joined(pieces[..|pieces| - 1]) + pieces[|pieces| - 1]
  }

  lemma {:induction false} JoinedOneMore(pieces: seq<seq<byte>>, i: nat)
    requires i < |pieces|
    ensures Joined(pieces[..i + 1]) == Joined(pieces[..i]) + pieces[i]
    ensures |Joined(pieces[..i + 1])| <= |Joined(pieces)|
    decreases |pieces|
  {
    assert pieces[..i + 1][..i] == pieces[..i];
    if i + 1 == |pieces| {
      assert pieces[..i + 1] == pieces;
    } else {
      var front := pieces[..|pieces| - 1];
      JoinedOneMore(front, i);
      assert front[..i + 1] == pieces[..i + 1];
    }
  }
}
