/** Object identifiers: OID::EncodeValue, DecodeValue, DEREncode and BERDecode (asn.cpp). */
module Asn1Oid {
  import opened Arithmetic
  import opened ByteStrings
  import opened Asn1Length

  const OBJECT_IDENTIFIER: byte := 6

  // ---- one arc in base 128 ----

  /** All groups but the last, with the continuation bit set. */
  function Leading(v: nat): seq<byte> {
    if v == 0 then [] else Leading(v / 128) + [0x80 + v % 128]
  }

  /** Section 8.19.2 of X.690: base 128, continuation bit on every octet but the last. */
  function Arc(v: nat): seq<byte> {
    Leading(v / 128) + [v % 128]
  }

  datatype Decoded = Failed | Value(v: nat, rest: seq<byte>)

  /** The decoding loop, with its overflow guard on 32-bit words. */
  function DecodeArc(v: nat, s: seq<byte>): Decoded
    decreases |s|
  {
    if |s| == 0 then Failed
    else if v >= 0x200_0000 then Failed
    else
      var v' := v * 128 + s[0] % 128;
      if s[0] < 0x80 then Value(v', s[1..]) else DecodeArc(v', s[1..])
  }

  lemma {:induction false} LeadingDecodes(v: nat, tail: seq<byte>)
    requires v < 0x200_0000
    ensures DecodeArc(0, Leading(v) + tail) == DecodeArc(v, tail)
  {
    if v == 0 {
      assert Leading(v) + tail == tail;
    } else {
      var last := 0x80 + v % 128;
      assert Leading(v) + tail == Leading(v / 128) + ([last] + tail);
      LeadingDecodes(v / 128, [last] + tail);
      assert ([last] + tail)[1..] == tail;
    }
  }

  /** Every 32-bit arc decodes to itself: the guard never rejects an encoded arc. */
  lemma {:induction false} ArcRoundTrip(v: nat, rest: seq<byte>)
    requires v < TWO32
    ensures DecodeArc(0, Arc(v) + rest) == Value(v, rest)
  {
    assert Arc(v) + rest == Leading(v / 128) + ([v % 128] + rest);
    LeadingDecodes(v / 128, [v % 128] + rest);
    assert ([v % 128] + rest)[1..] == rest;
  }

  /** No encoding of an arc is shorter, and the first octet is never an empty group. */
  lemma {:induction false} ArcIsMinimal(acc: nat, s: seq<byte>)
    requires DecodeArc(acc, s).Value?
    ensures var d := DecodeArc(acc, s); |Leading(d.v)| <= |Leading(acc)| + |s| - |d.rest| && |s| > |d.rest| && d.v < TWO32
    decreases |s|
  {
    var next := acc * 128 + s[0] % 128;
    assert next / 128 == acc;
    if s[0] >= 0x80 { ArcIsMinimal(next, s[1..]); }
  }

  /** Octet i of an arc is its 7-bit group from the left, with the high bit set on every octet but the last; the first
      group of an arc with several is not zero. */
  lemma {:induction false} ArcOctets(v: nat, i: nat)
    requires i < |Arc(v)|
    ensures var last := |Arc(v)| - 1;
            && Arc(v)[i] == (if i < last then 128 else 0) + Shr(v, 7 * (last - i)) % 128
            && Shr(v, 7 * |Arc(v)|) == 0 && (last > 0 ==> Shr(v, 7 * last) > 0)
  {
    hide Shr;
    ShiftByZero(v);
    ShrSeven(v, 7);
    LeadingOctets(v / 128, i);
    var last := |Arc(v)| - 1;
    ShrShr(v, 7, 7 * last);
    if last > 0 { ShrShr(v, 7, 7 * (last - 1)); }
    if i < last { ShrShr(v, 7, 7 * (last - 1 - i)); }
  }

  lemma {:induction false} LeadingOctets(v: nat, i: nat)
    ensures var n := |Leading(v)|;
            && (i < n ==> Leading(v)[i] == 128 + Shr(v, 7 * (n - 1 - i)) % 128)
            && Shr(v, 7 * n) == 0 && (n > 0 ==> Shr(v, 7 * (n - 1)) > 0)
    decreases v
  {
    hide Shr;
    ShiftByZero(v);
    if v > 0 {
      ShrSeven(v, 7);
      LeadingOctets(v / 128, i);
      var n := |Leading(v / 128)|;
      ShrShr(v, 7, 7 * n);
      if n > 0 { ShrShr(v, 7, 7 * (n - 1)); }
      if i < n { ShrShr(v, 7, 7 * (n - 1 - i)); }
    }
  }

  // ---- whole identifiers ----

  type Oid = s: seq<nat> | forall i :: 0 <= i < |s| ==> s[i] < TWO32 witness []

  function Arcs(values: seq<nat>): seq<byte> {
    if |values| == 0 then [] else Arc(values[0]) + Arcs(values[1..])
  }

  /** The first octet merges two arcs; the sum and the cast both truncate. */
  function FirstOctet(values: Oid): byte
    requires |values| >= 2
  {
    (values[0] * 40 + values[1]) % TWO32 % 256
  }

  function Body(values: Oid): seq<byte>
    requires |values| >= 2
  {
    [FirstOctet(values)] + Arcs(values[2..])
  }

  function DerOid(values: Oid): seq<byte>
    requires |values| >= 2 && |Body(values)| < TWO64
  {
    [OBJECT_IDENTIFIER] + DerLength(|Body(values)|) + Body(values)
  }

  datatype DecodedOid = OidFailed | OidValue(values: seq<nat>, rest: seq<byte>)

  function BerArcs(values: seq<nat>, s: seq<byte>, length: nat): DecodedOid
    decreases length
  {
    if length == 0 then OidValue(values, s) else
    var d := DecodeArc(0, s);
    if d.Failed? || |s| - |d.rest| > length || |s| <= |d.rest| then OidFailed
    else BerArcs(values + [d.v], d.rest, length - (|s| - |d.rest|))
  }

  function BerOid(s: seq<byte>): DecodedOid {
    if |s| == 0 || s[0] != OBJECT_IDENTIFIER then OidFailed else
    var p := BerLength(s[1..]);
    if !p.Definite? || p.length < 1 || |p.rest| == 0 then OidFailed
    else BerArcs([p.rest[0] / 40, p.rest[0] % 40], p.rest[1..], p.length - 1)
  }

  lemma {:induction false} ArcsDecode(values: seq<nat>, arcs: Oid, rest: seq<byte>)
    ensures BerArcs(values, Arcs(arcs) + rest, |Arcs(arcs)|) == OidValue(values + arcs, rest)
    decreases |arcs|
  {
    if |arcs| == 0 {
      assert Arcs(arcs) + rest == rest && values + arcs == values;
    } else {
      var tail: Oid := arcs[1..];
      assert Arcs(arcs) + rest == Arc(arcs[0]) + (Arcs(tail) + rest);
      ArcRoundTrip(arcs[0], Arcs(tail) + rest);
      ArcsDecode(values + [arcs[0]], tail, rest);
      assert values + [arcs[0]] + tail == values + arcs;
    }
  }

  /** What decoding an encoded identifier yields, for every identifier. */
  lemma {:induction false} OidDecodes(values: Oid, rest: seq<byte>)
    requires |values| >= 2 && |Body(values)| < TWO64
    ensures BerOid(DerOid(values) + rest) ==
            OidValue([FirstOctet(values) / 40, FirstOctet(values) % 40] + values[2..], rest)
  {
    hide BerArcs, BerLength, DerLength;
    var body := Body(values);
    var arcs: Oid := values[2..];
    LengthRoundTrip(|body|, body + rest);
    assert (DerOid(values) + rest)[1..] == DerLength(|body|) + (body + rest);
    assert (body + rest)[1..] == Arcs(arcs) + rest;
    ArcsDecode([FirstOctet(values) / 40, FirstOctet(values) % 40], arcs, rest);
  }

  /** Decoding undoes encoding exactly when the second arc is below 40 and the first octet fits a byte. */
  lemma {:induction false} OidRoundTripIff(values: Oid, rest: seq<byte>)
    requires |values| >= 2 && |Body(values)| < TWO64
    ensures BerOid(DerOid(values) + rest) == OidValue(values, rest)
            <==> values[1] < 40 && values[0] * 40 + values[1] < 256
  {
    hide BerOid, DerOid, FirstOctet, Body;
    OidDecodes(values, rest);
    OctetDecides(values);
    FirstTwo(FirstOctet(values) / 40, FirstOctet(values) % 40, values);
  }

  lemma {:induction false} OctetDecides(values: Oid)
    requires |values| >= 2
    ensures FirstOctet(values) / 40 == values[0] && FirstOctet(values) % 40 == values[1]
            <==> values[1] < 40 && values[0] * 40 + values[1] < 256
  {
    hide FirstOctet;
    var b, x := FirstOctet(values), values[0] * 40 + values[1];
    FirstOctetFits(values);
    assert b == (b / 40) * 40 + b % 40;
    if x < 256 && values[1] < 40 { DivModUnique(x, 40, values[0], values[1]); }
  }

  lemma {:induction false} FirstOctetFits(values: Oid)
    requires |values| >= 2
    ensures FirstOctet(values) < 256
    ensures values[0] * 40 + values[1] < 256 ==> FirstOctet(values) == values[0] * 40 + values[1]
  {
  }

  lemma {:induction false} FirstTwo(a: nat, b: nat, values: seq<nat>)
    requires |values| >= 2
    ensures [a, b] + values[2..] == values <==> a == values[0] && b == values[1]
  {
    var decoded := [a, b] + values[2..];
    assert decoded[0] == a && decoded[1] == b;
    assert values == [values[0], values[1]] + values[2..];
  }

  /** 2.100.3 is a legal identifier of the ITU arc, and comes back as 4.20.3. */
  lemma {:induction false} JointArcIsLost()
    ensures |Body([2, 100, 3])| < TWO64
    ensures BerOid(DerOid([2, 100, 3])) == OidValue([4, 20, 3], [])
  {
    var values: Oid := [2, 100, 3];
    assert Arcs(values[2..]) == Arc(3) + Arcs([]) by { assert values[2..] == [3]; }
    assert Leading(0) == [];
    OidDecodes(values, []);
    assert DerOid(values) + [] == DerOid(values);
  }

  /** 1.2.840.113549 is 06 06 2A 86 48 86 F7 0D. */
  lemma {:induction false} KnownIdentifier()
    ensures |Body([1, 2, 840, 113549])| < TWO64
    ensures DerOid([1, 2, 840, 113549]) == [0x06, 0x06, 0x2A, 0x86, 0x48, 0x86, 0xF7, 0x0D]
  {
    hide Arcs, Arc, DerLength;
    var values: Oid := [1, 2, 840, 113549];
    KnownArcs();
    assert values[2..] == [840, 113549];
    assert Body(values) == [0x2A, 0x86, 0x48, 0x86, 0xF7, 0x0D];
    ShortLength(6);
  }

  lemma {:induction false} ShortLength(n: nat)
    requires n < 0x80
    ensures DerLength(n) == [n]
  {
  }

  lemma {:induction false} KnownArcs()
    ensures Arcs([840, 113549]) == [0x86, 0x48, 0x86, 0xF7, 0x0D]
  {
    hide Leading;
    KnownGroups();
    assert [840, 113549][1..] == [113549] && [113549][1..] == [];
    assert Arcs([113549]) == Arc(113549) + Arcs([]);
  }

  lemma {:induction false} KnownGroups()
    ensures Leading(6) == [0x86] && Leading(887) == [0x86, 0xF7]
  {
    assert Leading(0) == [];
  }

  // ---- the loops ----

  /** The number of 7-bit groups EncodeValue writes, as it computes it. */
  function Groups(v: nat): nat {
    var bits := if BitCount(v) > 7 then BitCount(v) else 7;
    (bits + 6) / 7
  }

  lemma {:induction false} ShrSeven(v: nat, k: nat)
    requires k >= 7
    ensures Shr(v, k) == Shr(v, k - 7) / 128
  {
    assert Shr(v, k) == Shr(v, k - 2) / 4;
    assert Shr(v, k - 2) == Shr(v, k - 4) / 4;
    assert Shr(v, k - 4) == Shr(v, k - 6) / 4;
    assert Shr(v, k - 6) == Shr(v, k - 7) / 2;
  }

  /** The octets of the groups above the lowest j. */
  lemma {:induction false} TopGroupsEmpty(v: nat, j: nat)
    requires j >= Groups(v)
    ensures Leading(Shr(v, 7 * j)) == []
  {
    Pow2Monotone(BitCount(v), 7 * j);
    ShrSmall(v, 7 * j);
  }

  lemma {:induction false} GroupNonzero(v: nat, i: nat)
    requires 0 < i <= 7 * Groups(v) - 7
    ensures Shr(v, i) > 0
  {
    assert i < BitCount(v);
    Pow2Monotone(i, BitCount(v) - 1);
    LowRange(v, i);
    ShlOne(i);
  }

  method EncodeValue(bt: ByteQueue, v: nat)
    requires v < TWO32
    modifies bt
    ensures bt.data == old(bt.data) + Arc(v)
  {
    hide Shr, BitCount, Leading;
    var bits := if BitCount(v) > 7 then BitCount(v) else 7;
    var i := (bits + 6) / 7 * 7 - 7;  // RoundUpToMultipleOf(..., 7) - 7
    ghost var groups := (bits + 6) / 7;
    TopGroupsEmpty(v, groups);
    while i != 0
      invariant groups >= 1 && i == 7 * groups - 7 && groups <= Groups(v)
      invariant bt.data == old(bt.data) + Leading(Shr(v, i + 7))
      decreases i
    {
      NextGroup(v, i);
      bt.Put(0x80 + Shr(v, i) % 128);
      i, groups := i - 7, groups - 1;
    }
    LastGroup(v);
    bt.Put(v % 128);
  }

  lemma {:induction false} NextGroup(v: nat, i: nat)
    requires 0 < i <= 7 * Groups(v) - 7
    ensures Leading(Shr(v, i)) == Leading(Shr(v, i + 7)) + [0x80 + Shr(v, i) % 128]
  {
    hide Shr, BitCount;
    ShrSeven(v, i + 7);
    GroupNonzero(v, i);
  }

  lemma {:induction false} LastGroup(v: nat)
    ensures Arc(v) == Leading(Shr(v, 7)) + [v % 128]
  {
    hide Shr;
    ShrSeven(v, 7);
    ShiftByZero(v);
  }

  method DecodeValue(bt: ByteQueue) returns (ok: bool, v: nat, i: nat)
    modifies bt
    ensures ok <==> DecodeArc(0, old(bt.data)).Value?
    ensures ok ==> DecodeArc(0, old(bt.data)) == Value(v, bt.data) && i == |old(bt.data)| - |bt.data| && i > 0
  {
    ok, v, i := false, 0, 0;
    while true
      invariant !ok && i == |old(bt.data)| - |bt.data|
      invariant DecodeArc(0, old(bt.data)) == DecodeArc(v, bt.data)
      decreases |bt.data|
    {
      var got, b := bt.Get();
      if !got {
        return;
      }
      i := i + 1;
      if v >= 0x200_0000 {
        return;
      }
      v := v * 128;
      v := v + b % 128;
      if b < 0x80 {
        ok := true;
        return;
      }
    }
  }

  method DEREncode(bt: ByteQueue, values: Oid)
    requires |values| >= 2 && |Body(values)| < TWO64
    modifies bt
    ensures bt.data == old(bt.data) + DerOid(values)
  {
    hide Body, DerLength;
    var temp := EncodeBody(values);
    bt.Put(OBJECT_IDENTIFIER);
    var n := DERLengthEncode(bt, |temp.data|);
    bt.PutAll(temp.data);
  }

  /** The contents, collected in a queue of their own. */
  method EncodeBody(values: Oid) returns (temp: ByteQueue)
    requires |values| >= 2
    ensures fresh(temp) && temp.data == Body(values)
  {
    hide Arc;
    temp := new ByteQueue([]);
    temp.Put((values[0] * 40 + values[1]) % TWO32 % 256);
    for i := 2 to |values|
      invariant temp.data == [FirstOctet(values)] + Arcs(values[2..i])
    {
      ArcsAppend(values[2..i], values[i]);
      assert values[2..i] + [values[i]] == values[2..i + 1];
      EncodeValue(temp, values[i]);
    }
    assert values[2..|values|] == values[2..];
  }

  lemma {:induction false} ArcsAppend(values: seq<nat>, v: nat)
    ensures Arcs(values + [v]) == Arcs(values) + Arc(v)
  {
    if |values| > 0 {
      assert (values + [v])[1..] == values[1..] + [v];
      ArcsAppend(values[1..], v);
    } else {
      assert (values + [v])[1..] == [];
    }
  }

  method BERDecode(bt: ByteQueue) returns (ok: bool, values: seq<nat>)
    modifies bt
    ensures ok <==> BerOid(old(bt.data)).OidValue?
    ensures ok ==> BerOid(old(bt.data)) == OidValue(values, bt.data)
  {
    hide BerLength, DecodeArc;
    ok, values := false, [];
    var got, b := bt.Get();
    if !got || b != OBJECT_IDENTIFIER {
      return;
    }
    var p := BERLengthDecode(bt);
    if !p.Definite? || p.length < 1 {
      return;
    }
    got, b := bt.Get();
    if !got {
      return;
    }
    var length := p.length - 1;
    values := [b / 40, b % 40];
    while length > 0
      invariant length >= 0 && BerOid(old(bt.data)) == BerArcs(values, bt.data, length)
      decreases length
    {
      var decoded, v, valueLen := DecodeValue(bt);
      if !decoded {
        return;
      }
      if valueLen > length {
        return;
      }
      values := values + [v];
      length := length - valueLen;
    }
    ok := true;
  }
}
