/** DEREncodeUnsigned and BERDecodeUnsigned (asn.h) for a word of `size` bytes. */
module Asn1Unsigned {
  import opened Arithmetic
  import opened ByteStrings
  import opened Asn1Length

  const BOOLEAN: byte := 1
  const INTEGER: byte := 2
  const ENUMERATED: byte := 10

  /** Content octets: a boolean is 0 or 0xff, anything else the fewest octets with a clear sign bit. */
  function Content(w: nat, asnTag: byte): seq<byte> {
    if asnTag == BOOLEAN then [if w != 0 then 0xff else 0]
    else
      var k := if w == 0 then 1 else BytePrecision(w);
      var octets := BigEndian(w, k);
      if octets[0] >= 0x80 then [0] + octets else octets
  }

  function DerUnsigned(w: nat, asnTag: byte): seq<byte>
    requires |Content(w, asnTag)| < TWO64
  {
    [asnTag] + DerLength(|Content(w, asnTag)|) + Content(w, asnTag)
  }

  datatype Decoded = Failed | Word(w: nat, rest: seq<byte>)

  /** Drops leading zero octets while there are more octets than the word has. */
  function Trimmed(octets: seq<byte>, size: nat): seq<byte>
    decreases |octets|
  {
    if |octets| > size && octets[0] == 0 then Trimmed(octets[1..], size) else octets
  }

  function BerUnsigned(s: seq<byte>, size: nat, asnTag: byte, minValue: nat, maxValue: nat): Decoded {
    if |s| == 0 || s[0] != asnTag then Failed else
    var p := BerLength(s[1..]);
    if !p.Definite? || p.length > |p.rest| then Failed
    else if asnTag == BOOLEAN && p.length != 1 then Failed
    else if (asnTag == INTEGER || asnTag == ENUMERATED) && p.length == 0 then Failed
    else
      var octets := Trimmed(p.rest[..p.length], size);
      if |octets| > size then Failed
      else if Value(0, octets) < minValue || Value(0, octets) > maxValue then Failed
      else Word(Value(0, octets), p.rest[p.length..])
  }

  // ---- properties ----

  /** Without their boolean form, the content octets are the value, in at most one octet more than it needs. */
  lemma {:induction false} ContentValue(w: nat, asnTag: byte, size: nat)
    requires asnTag != BOOLEAN && BytePrecision(w) <= size && size >= 1
    ensures var c := Content(w, asnTag);
            1 <= |c| <= size + 1 && Value(0, c) == w && (|c| == size + 1 ==> c[0] == 0 && Value(0, c[1..]) == w)
  {
    var k := if w == 0 then 1 else BytePrecision(w);
    var octets := BigEndian(w, k);
    PrecisionWithin(w, k);
    ValueOfBigEndian(w, k);
    if octets[0] >= 0x80 {
      ValueConcat(0, [0], octets);
      assert [0 as byte][..0] == [];
      assert Value(0, [0]) == 0;
      assert ([0] + octets)[1..] == octets;
    }
  }

  /** Section 8.3.2 of X.690 for unsigned values: the first nine bits are not all zero. */
  lemma {:induction false} ContentIsMinimal(w: nat, asnTag: byte)
    requires asnTag != BOOLEAN
    ensures var c := Content(w, asnTag); c[0] < 0x80 && (|c| > 1 && c[0] == 0 ==> c[1] >= 0x80)
  {
    LeadingOctet(w);
  }

  lemma {:induction false} ValueBounds(c: seq<byte>)
    ensures Value(0, c) < ShiftBytes(1, |c|)
    ensures |c| > 0 && c[0] > 0 ==> Value(0, c) >= ShiftBytes(1, |c| - 1)
  {
    if |c| > 0 { ValueBounds(c[..|c| - 1]); }
  }

  lemma {:induction false} ShiftBytesMonotone(j: nat, k: nat)
    requires j <= k
    ensures ShiftBytes(1, j) <= ShiftBytes(1, k)
    decreases k
  {
    if j < k { ShiftBytesMonotone(j, k - 1); }
  }

  /** Trimming keeps the value, and leaves no more octets than the word has exactly if the value fits the word. */
  lemma {:induction false} TrimmedFits(c: seq<byte>, size: nat)
    ensures Value(0, Trimmed(c, size)) == Value(0, c)
    ensures |Trimmed(c, size)| <= size <==> Value(0, c) < ShiftBytes(1, size)
    decreases |c|
  {
    ValueBounds(c);
    if |c| > size && c[0] == 0 {
      TrimmedFits(c[1..], size);
      assert c == [0] + c[1..] && [0 as byte][..0] == [];
      ValueConcat(0, [0], c[1..]);
      assert Value(0, [0]) == 0;
    } else if |c| > size {
      ShiftBytesMonotone(size, |c| - 1);
    } else {
      ShiftBytesMonotone(|c|, size);
    }
  }

  /** What is read of content octets c: their value, exactly if it fits the word and the range asked for. A BOOLEAN (1)
      has one octet, an INTEGER (2) or ENUMERATED (10) at least one. */
  lemma {:induction false} ReadsIff(s: seq<byte>, size: nat, asnTag: byte, minValue: nat, maxValue: nat)
    requires |s| > 0 && s[0] == asnTag && BerLength(s[1..]).Definite? && BerLength(s[1..]).length <= |BerLength(s[1..]).rest|
    ensures var p := BerLength(s[1..]);
            var c, v := p.rest[..p.length], Value(0, p.rest[..p.length]);
            BerUnsigned(s, size, asnTag, minValue, maxValue) ==
            if (asnTag == 1 ==> |c| == 1) && (asnTag == 2 || asnTag == 10 ==> |c| > 0)
               && v < ShiftBytes(1, size) && minValue <= v <= maxValue
            then Word(v, p.rest[p.length..]) else Failed
  {
    hide Value, ShiftBytes, BerLength, Trimmed;
    var p := BerLength(s[1..]);
    TrimmedFits(p.rest[..p.length], size);
  }

  /** Known encodings: FALSE, TRUE, and the integers 0, 127, 128 and 256. */
  lemma {:induction false} KnownEncodings()
    ensures Content(0, 1) == [0] && Content(1, 1) == [0xff]
    ensures Content(0, 2) == [0] && Content(127, 2) == [127] && Content(128, 2) == [0, 128] && Content(256, 2) == [1, 0]
    ensures DerUnsigned(1, 1) == [1, 1, 0xff] && DerUnsigned(128, 2) == [2, 2, 0, 128] && DerUnsigned(0, 10) == [10, 1, 0]
  {
    assert BigEndian(0, 1) == [0] && BigEndian(127, 1) == [127] && BigEndian(128, 1) == [128];
    assert BigEndian(1, 1) == [1] && BigEndian(256, 2) == [1, 0];
    assert BytePrecision(127) == 1 && BytePrecision(128) == 1 && BytePrecision(256) == 2;
  }

  /** Decoding gives the word back exactly when it is in the range asked for and, as a BOOLEAN, is 0 or 255. */
  lemma {:induction false} UnsignedRoundTripIff(w: nat, size: nat, asnTag: byte, minValue: nat, maxValue: nat,
      rest: seq<byte>)
    requires 1 <= size <= 8 && BytePrecision(w) <= size
    ensures |Content(w, asnTag)| <= size + 1
    ensures BerUnsigned(DerUnsigned(w, asnTag) + rest, size, asnTag, minValue, maxValue) == Word(w, rest)
            <==> minValue <= w <= maxValue && (asnTag == BOOLEAN ==> w == 0 || w == 255)
  {
    hide Content, Trimmed, Value, BytePrecision, DerLength, BerLength;
    var c := Content(w, asnTag);
    var trimmed := TrimmedContent(w, size, asnTag);
    var s := DerUnsigned(w, asnTag) + rest;
    LengthRoundTrip(|c|, c + rest);
    assert s[1..] == DerLength(|c|) + (c + rest);
    assert (c + rest)[..|c|] == c && (c + rest)[|c|..] == rest;
  }

  /** What is left of the content octets when the reader has trimmed them. */
  lemma {:induction false} TrimmedContent(w: nat, size: nat, asnTag: byte) returns (trimmed: seq<byte>)
    requires 1 <= size <= 8 && BytePrecision(w) <= size
    ensures trimmed == Trimmed(Content(w, asnTag), size)
    ensures 1 <= |Content(w, asnTag)| <= size + 1 && |trimmed| <= size
    ensures asnTag == BOOLEAN ==> |Content(w, asnTag)| == 1
    ensures Value(0, trimmed) == if asnTag == BOOLEAN then (if w != 0 then 255 else 0) else w
  {
    hide Value, BytePrecision, BigEndian;
    var c := Content(w, asnTag);
    if asnTag == BOOLEAN {
      OneOctet(c);
    } else {
      ContentValue(w, asnTag, size);
    }
    trimmed := if |c| == size + 1 then c[1..] else c;
  }

  lemma {:induction false} OneOctet(c: seq<byte>)
    requires |c| == 1
    ensures Value(0, c) == c[0]
  {
  }

  // ---- the loops ----

  /** Fills buf[1..] with the word, most significant octet first. */
  method FillOctets(w: nat, size: nat) returns (buf: array<byte>)
    requires BytePrecision(w) <= size
    ensures fresh(buf) && buf.Length == size + 1
    ensures buf[..] == [0] + BigEndian(w, size)
  {
    buf := new byte[size + 1](_ => 0);
    for i := 0 to size
      invariant buf[0] == 0 && buf[1..i + 1] == BigEndian(ShrBytes(w, size - i), i)
    {
      buf[i + 1] := ShrBytes(w, size - 1 - i) % 256;
      assert buf[1..i + 2] == buf[1..i + 1] + [buf[i + 1]];
    }
    assert buf[..] == [buf[0]] + buf[1..size + 1];
  }

  /** More octets than needed are zeros in front. */
  lemma {:induction false} WiderBigEndian(w: nat, k: nat, extra: nat)
    requires BytePrecision(w) <= k
    ensures BigEndian(w, k + extra) == Zeros(extra) + BigEndian(w, k)
  {
    if k > 0 {
      WiderBigEndian(w / 256, k - 1, extra);
      assert Zeros(extra) + BigEndian(w, k) == (Zeros(extra) + BigEndian(w / 256, k - 1)) + [w % 256];
    } else if extra > 0 {
      WiderBigEndian(0, 0, extra - 1);
      assert Zeros(extra) == Zeros(extra - 1) + [0];
    }
  }

  lemma {:induction false} ContentCases(w: nat, asnTag: byte)
    ensures var octets := BigEndian(w, if w == 0 then 1 else BytePrecision(w));
            && |octets| > 0
            && Content(w, asnTag) == if asnTag == BOOLEAN then [if w != 0 then 0xff else 0]
                                     else if octets[0] >= 0x80 then [0] + octets else octets
  {
  }

  /** The octets to write: the last bc bytes of the local array. */
  method ChooseOctets(w: nat, size: nat, asnTag: byte) returns (buf: array<byte>, bc: nat)
    requires 1 <= size <= 8 && BytePrecision(w) <= size
    ensures fresh(buf) && buf.Length == size + 1 && bc <= size + 1
    ensures buf[size + 1 - bc..] == Content(w, asnTag)
  {
    hide BytePrecision, BigEndian, Content;
    buf := FillOctets(w, size);
    ContentCases(w, asnTag);
    if asnTag == BOOLEAN {
      buf[size] := if w != 0 then 0xff else 0;
      bc := 1;
    } else {
      ghost var k := if w == 0 then 1 else BytePrecision(w);
      Layout(w, size, k);
      bc := CountOctets(buf, size, k, BigEndian(w, k));
    }
  }

  /** Without the zeros in front, but with one if the sign bit were set. */
  method CountOctets(buf: array<byte>, size: nat, ghost k: nat, ghost octets: seq<byte>) returns (bc: nat)
    requires 1 <= k == |octets| <= size && buf[..] == [0] + Zeros(size - k) + octets && (k > 1 ==> octets[0] != 0)
    ensures buf.Length == size + 1 && bc <= size + 1
    ensures buf[size + 1 - bc..] == if octets[0] >= 0x80 then [0] + octets else octets
  {
    ghost var b := buf[..];
    LaidOut(b, size, k, octets);
    bc := size;
    while bc > 1 && buf[size + 1 - bc] == 0
      invariant k <= bc <= size
    {
      bc := bc - 1;
    }
    assert bc == k;
    if buf[size + 1 - bc] >= 0x80 {
      bc := bc + 1;
    }
    assert b[size + 1 - k..] == buf[size + 1 - k..] && b[size - k..] == buf[size - k..];
  }

  lemma {:induction false} LaidOut(b: seq<byte>, size: nat, k: nat, octets: seq<byte>)
    requires 1 <= k == |octets| <= size && b == [0] + Zeros(size - k) + octets && (k > 1 ==> octets[0] != 0)
    ensures |b| == size + 1 && b[size + 1 - k..] == octets && b[size - k..] == [0] + octets
    ensures b[size + 1 - k] == octets[0] && forall j :: 0 <= j <= size - k ==> b[j] == 0
  {
  }

  lemma {:induction false} Layout(w: nat, size: nat, k: nat)
    requires k == (if w == 0 then 1 else BytePrecision(w)) && k <= size
    ensures 1 <= k && [0] + BigEndian(w, size) == [0] + Zeros(size - k) + BigEndian(w, k)
    ensures k > 1 ==> BigEndian(w, k)[0] != 0
  {
    WiderBigEndian(w, k, size - k);
    LeadingOctet(w);
    assert [0] + (Zeros(size - k) + BigEndian(w, k)) == [0] + Zeros(size - k) + BigEndian(w, k);
  }

  method DEREncodeUnsigned(out: ByteQueue, w: nat, size: nat, asnTag: byte) returns (n: nat)
    requires 1 <= size <= 8 && BytePrecision(w) <= size
    modifies out
    ensures |Content(w, asnTag)| <= size + 1
    ensures out.data == old(out.data) + DerUnsigned(w, asnTag) && n == |DerUnsigned(w, asnTag)|
  {
    hide Content, DerLength;
    var buf, bc := ChooseOctets(w, size, asnTag);
    out.Put(asnTag);
    var lengthBytes := DERLengthEncode(out, bc);
    out.PutAll(buf[size + 1 - bc..]);
    n := 1 + lengthBytes + bc;
  }

  /** Skips the leading zero octets beyond the word size. */
  method SkipZeros(buf: seq<byte>, size: nat) returns (ptr: nat)
    ensures ptr <= |buf| && buf[ptr..] == Trimmed(buf, size)
  {
    ptr := 0;
    while |buf| - ptr > size && buf[ptr] == 0
      invariant ptr <= |buf| && Trimmed(buf, size) == Trimmed(buf[ptr..], size)
    {
      assert buf[ptr..][1..] == buf[ptr + 1..];
      ptr := ptr + 1;
    }
  }

  method Accumulate(octets: seq<byte>) returns (w: nat)
    ensures w == Value(0, octets)
  {
    w := 0;
    for i := 0 to |octets|
      invariant w == Value(0, octets[..i])
    {
      assert octets[..i + 1][..i] == octets[..i];
      w := w * 256 + octets[i];
    }
    assert octets[..|octets|] == octets;
  }

  method BERDecodeUnsigned(input: ByteQueue, size: nat, asnTag: byte, minValue: nat,
      maxValue: nat) returns (ok: bool, w: nat)
    modifies input
    ensures ok <==> BerUnsigned(old(input.data), size, asnTag, minValue, maxValue).Word?
    ensures ok ==> BerUnsigned(old(input.data), size, asnTag, minValue, maxValue) == Word(w, input.data)
  {
    hide BerLength, Trimmed, Value;
    ok, w := false, 0;
    var got, b := input.Get();
    if !got || b != asnTag {
      return;
    }
    var p := BERLengthDecode(input);
    if !p.Definite? || p.length > |input.data| {
      return;
    }
    var bc := p.length;
    if asnTag == BOOLEAN && bc != 1 {
      return;
    }
    if (asnTag == INTEGER || asnTag == ENUMERATED) && bc == 0 {
      return;
    }
    var buf := input.data[..bc];
    input.data := input.data[bc..];
    var ptr := SkipZeros(buf, size);
    if bc - ptr > size {
      return;
    }
    w := Accumulate(buf[ptr..]);
    ok := minValue <= w <= maxValue;
  }
}
