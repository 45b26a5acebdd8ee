/** ASN.1 lengths: DERLengthEncode and BERLengthDecode (asn.cpp), over a byte queue. */
module Asn1Length {
  import opened Arithmetic
  import opened ByteStrings

  /** The part of BufferedTransformation the codecs use: a queue of bytes. */
  class ByteQueue {
    var data: seq<byte>

    constructor (data: seq<byte>)
      ensures this.data == data
    {
      this.data := data;
    }

    method Put(b: byte)
      modifies this
      ensures data == old(data) + [b]
    {
      data := data + [b];
    }

    method PutAll(s: seq<byte>)
      modifies this
      ensures data == old(data) + s
    {
      data := data + s;
    }

    method Get() returns (ok: bool, b: byte)
      modifies this
      ensures ok <==> |old(data)| > 0
      ensures ok ==> b == old(data)[0] && data == old(data)[1..]
      ensures !ok ==> data == old(data)
    {
      if |data| == 0 {
        return false, 0;
      }
      ok, b, data := true, data[0], data[1..];
    }
  }

  /** v >> 8*j. */
  function ShrBytes(v: nat, j: nat): nat {
    if j == 0 then v else ShrBytes(v, j - 1) / 256
  }

  /** BytePrecision: the least number of bytes that hold v. */
  function BytePrecision(v: nat): nat {
    if v == 0 then 0 else 1 + BytePrecision(v / 256)
  }

  /** Eight bytes are exactly the 64-bit words. */
  lemma {:induction false} PrecisionOfWord(v: nat)
    ensures v < TWO64 <==> BytePrecision(v) <= 8
    ensures v < 0x100_0000_0000_0000 <==> BytePrecision(v) <= 7
  {
    PrecisionWithin(v, 8);
    PrecisionWithin(v, 7);
    assert ShiftBytes(1, 8) == TWO64 && ShiftBytes(1, 7) == 0x100_0000_0000_0000 by {
      assert ShiftBytes(1, 2) == 0x1_0000 && ShiftBytes(1, 4) == 0x1_0000_0000 && ShiftBytes(1, 6) == 0x1_0000_0000_0000;
    }
  }

  lemma {:induction false} PrecisionWithin(v: nat, k: nat)
    ensures BytePrecision(v) <= k <==> v < ShiftBytes(1, k)
  {
    if k > 0 { PrecisionWithin(v / 256, k - 1); }
  }

  // ---- the two codecs as functions ----

  /** DER length octets (section 10.1 of X.690): definite, in the fewest octets. */
  function DerLength(length: nat): seq<byte>
    requires length < TWO64
  {
    PrecisionOfWord(length);
    if length <= 0x7f then [length] else [0x80 + BytePrecision(length)] + BigEndian(length, BytePrecision(length))
  }

  datatype Parsed =
    | EndOfInput
    | DecodeError
    | Indefinite(rest: seq<byte>)
    | Definite(length: nat, rest: seq<byte>)

  /** The loop over the length octets, with its overflow guard. */
  function BerLengthBytes(acc: nat, s: seq<byte>, count: nat): Parsed
    decreases count
  {
    if count == 0 then Definite(acc, s)
    else if acc >= 0x100_0000_0000_0000 then DecodeError
    else if |s| == 0 then EndOfInput
    else BerLengthBytes(acc * 256 + s[0], s[1..], count - 1)
  }

  /** BER length octets (section 8.1.3 of X.690). */
  function BerLength(s: seq<byte>): Parsed {
    if |s| == 0 then EndOfInput
    else if s[0] < 0x80 then Definite(s[0], s[1..])
    else if s[0] == 0x80 then Indefinite(s[1..])
    else BerLengthBytes(0, s[1..], s[0] - 0x80)
  }

  // ---- what the codecs promise each other ----

  lemma {:induction false} OneMoreByte(acc: nat, b: byte)
    ensures BytePrecision(acc * 256 + b) <= BytePrecision(acc) + 1
  {
    assert (acc * 256 + b) / 256 == acc;
  }

  lemma {:induction false} BytesDecode(acc: nat, s: seq<byte>, rest: seq<byte>)
    requires BytePrecision(acc) + |s| <= 8
    ensures BerLengthBytes(acc, s + rest, |s|) == Definite(Value(acc, s), rest)
    decreases |s|
  {
    if |s| == 0 {
      assert s + rest == rest;
    } else {
      hide Value, BytePrecision;
      var next := acc * 256 + s[0];
      PrecisionOfWord(acc);
      OneMoreByte(acc, s[0]);
      assert (s + rest)[1..] == s[1..] + rest;
      BytesDecode(next, s[1..], rest);
      ValueFirst(acc, s);
    }
  }

  /** Decoding undoes encoding for every 64-bit length. */
  lemma {:induction false} LengthRoundTrip(length: nat, rest: seq<byte>)
    requires length < TWO64
    ensures BerLength(DerLength(length) + rest) == Definite(length, rest)
  {
    PrecisionOfWord(length);
    var k := BytePrecision(length);
    if length <= 0x7f {
      assert ([length] + rest)[1..] == rest;
    } else {
      var body := BigEndian(length, k);
      assert (DerLength(length) + rest)[1..] == body + rest;
      BytesDecode(0, body, rest);
      PrecisionWithin(length, k);
      ValueOfBigEndian(length, k);
    }
  }

  /** The long form: a count of at least one octet, and that many octets of the length, the first not zero. */
  lemma {:induction false} LongForm(n: nat)
    requires 0x7f < n < TWO64
    ensures var s := DerLength(n); 2 <= |s| <= 9 && s[0] == 0x80 + |s| - 1 && s[1] != 0 && Value(0, s[1..]) == n
  {
    hide BigEndian, Value;
    PrecisionOfWord(n);
    PrecisionWithin(n, BytePrecision(n));
    ValueOfBigEndian(n, BytePrecision(n));
    LeadingOctet(n);
    assert DerLength(n)[1..] == BigEndian(n, BytePrecision(n));
  }

  lemma {:induction false} LeadingOctet(w: nat)
    ensures w > 0 ==> BigEndian(w, BytePrecision(w))[0] > 0
  {
    if w >= 256 {
      LeadingOctet(w / 256);
      assert BigEndian(w, BytePrecision(w))[0] == BigEndian(w / 256, BytePrecision(w / 256))[0];
    } else if w > 0 {
      assert BytePrecision(w) == 1;
    }
  }

  lemma {:induction false} ValueGrows(acc: nat, s: seq<byte>)
    ensures Value(acc, s) >= acc
  {
    if |s| > 0 { ValueGrows(acc, s[..|s| - 1]); }
  }

  /** The octets are accepted exactly if they are there and the number they denote fits 64 bits, leading zeros or not. */
  lemma {:induction false} LengthBytesIff(acc: nat, s: seq<byte>, count: nat)
    requires acc < TWO64
    ensures BerLengthBytes(acc, s, count).Definite? <==> count <= |s| && Value(acc, s[..count]) < TWO64
    ensures BerLengthBytes(acc, s, count).Definite? ==>
      BerLengthBytes(acc, s, count) == Definite(Value(acc, s[..count]), s[count..])
    decreases count
  {
    if 0 < count <= |s| {
      var next, rest := acc * 256 + s[0], s[1..];
      assert s[..count][1..] == rest[..count - 1];
      ValueFirst(acc, s[..count]);
      if acc < 0x100_0000_0000_0000 {
        LengthBytesIff(next, rest, count - 1);
        assert rest[count - 1..] == s[count..];
      } else {
        ValueGrows(next, rest[..count - 1]);
      }
    } else if count > 0 && |s| > 0 && acc < 0x100_0000_0000_0000 {
      LengthBytesIff(acc * 256 + s[0], s[1..], count - 1);
    }
  }

  lemma {:induction false} BytesConsumed(acc: nat, s: seq<byte>, count: nat)
    requires BerLengthBytes(acc, s, count).Definite?
    ensures var d := BerLengthBytes(acc, s, count);
            |s| - |d.rest| == count && BytePrecision(d.length) <= BytePrecision(acc) + count
    decreases count
  {
    if count > 0 {
      assert (acc * 256 + s[0]) / 256 == acc;
      BytesConsumed(acc * 256 + s[0], s[1..], count - 1);
    }
  }

  /** No BER encoding of a length is shorter than the DER encoding. */
  lemma {:induction false} DerLengthIsMinimal(s: seq<byte>)
    requires BerLength(s).Definite? && BerLength(s).length < TWO64
    ensures |DerLength(BerLength(s).length)| <= |s| - |BerLength(s).rest|
  {
    if s[0] > 0x80 {
      BytesConsumed(0, s[1..], s[0] - 0x80);
    }
  }

  /** The guard keeps every accepted length within 64 bits. */
  lemma {:induction false} AcceptedLengthFits(acc: nat, s: seq<byte>, count: nat)
    requires BerLengthBytes(acc, s, count).Definite? && acc < TWO64
    ensures BerLengthBytes(acc, s, count).length < TWO64
    decreases count
  {
    if count > 0 { AcceptedLengthFits(acc * 256 + s[0], s[1..], count - 1); }
  }

  // ---- the loops ----

  method DERLengthEncode(bt: ByteQueue, length: nat) returns (i: nat)
    requires length < TWO64
    modifies bt
    ensures bt.data == old(bt.data) + DerLength(length) && i == |DerLength(length)|
  {
    i := 0;
    if length <= 0x7f {
      bt.Put(length);
      i := i + 1;
    } else {
      PrecisionOfWord(length);
      var k := BytePrecision(length);
      bt.Put(0x80 + k);
      i := i + 1;
      var j := k;
      while j > 0
        invariant j <= k && i == 1 + (k - j)
        invariant bt.data == old(bt.data) + [0x80 + k] + BigEndian(ShrBytes(length, j), k - j)
      {
        bt.Put(ShrBytes(length, j - 1) % 256);
        i := i + 1;
        j := j - 1;
      }
    }
  }

  method BERLengthDecode(bt: ByteQueue) returns (p: Parsed)
    modifies bt
    ensures p.EndOfInput? <==> BerLength(old(bt.data)).EndOfInput?
    ensures p.DecodeError? <==> BerLength(old(bt.data)).DecodeError?
    ensures p.Definite? || p.Indefinite? ==> p == BerLength(old(bt.data)) && bt.data == p.rest
  {
    var ok, b := bt.Get();
    if !ok {
      return EndOfInput;
    }
    if b < 0x80 {
      return Definite(b, bt.data);
    }
    var lengthBytes := b - 0x80;
    if lengthBytes == 0 {
      return Indefinite(bt.data);
    }
    var length: nat := 0;
    while lengthBytes > 0
      invariant BerLength(old(bt.data)) == BerLengthBytes(length, bt.data, lengthBytes)
      decreases lengthBytes
    {
      lengthBytes := lengthBytes - 1;
      if length >= 0x100_0000_0000_0000 {
        return DecodeError;
      }
      ok, b := bt.Get();
      if !ok {
        return EndOfInput;
      }
      length := length * 256 + b;
    }
    p := Definite(length, bt.data);
  }
}
