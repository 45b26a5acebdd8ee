/** Encoder, Grouper and Decoder attached to one another (basecode.cpp): each passes on what it outputs at once. */
module BaseNPipeline {
  import opened Arithmetic
  import ByteStrings
  import opened BaseNSpec
  import opened BaseNEncoding
  import opened BaseNGrouping
  import opened BaseNDecoding

  /** What each filter has received is what the one before it has put out since the message began. */
  ghost predicate Attached(encoder: Encoder, grouper: Grouper, decoder: Decoder)
    reads encoder, encoder.outBuf, grouper, decoder, decoder.outBuf
  {
    && encoder.Valid() && grouper.Valid() && decoder.Valid()
    && encoder.outBuf != decoder.outBuf
    && encoder.base == grouper.base == decoder.base == []
    && grouper.fed == encoder.output && decoder.fed == grouper.output
  }

  /** A chunk that does not end the message goes through all three. */
  method PutChunk(encoder: Encoder, grouper: Grouper, decoder: Decoder, chunk: seq<byte>)
    requires Attached(encoder, grouper, decoder)
    modifies encoder, encoder.outBuf, grouper, decoder, decoder.outBuf
    ensures Attached(encoder, grouper, decoder) && encoder.fed == old(encoder.fed) + chunk
  {
    hide Encoder.Valid, Grouper.Valid, Decoder.Valid;
    var sent, passed := |encoder.output|, |grouper.output|;
    encoder.Put2(chunk, false);
    grouper.Put2(encoder.output[sent..], false);
    decoder.Put2(grouper.output[passed..], false);
  }

  /** The last chunk: the message end is passed on behind it. */
  method PutLast(encoder: Encoder, grouper: Grouper, decoder: Decoder, chunk: seq<byte>)
    requires Attached(encoder, grouper, decoder)
    requires decoder.bitsPerChar == encoder.bitsPerChar
    modifies encoder, encoder.outBuf, grouper, decoder, decoder.outBuf
    ensures 1 <= encoder.bitsPerChar <= 7 && |encoder.alphabet| >= Pow2(encoder.bitsPerChar) && -1 <= encoder.padding < 256
    ensures LookupFor(decoder.lookup, encoder.bitsPerChar)
    ensures decoder.output == Decoded(decoder.lookup, encoder.bitsPerChar,
      Separated(grouper.groupSize, grouper.separator,
        Encoded(encoder.alphabet, encoder.bitsPerChar, encoder.padding, old(encoder.fed) + chunk)) + grouper.terminator)
  {
    hide Grouper.Valid, Pow2, BlockSize, ByteBlock, Encoded, Separated, Decoded, Holds, Taken, Pack;
    var sent, passed := |encoder.output|, |grouper.output|;
    encoder.Put2(chunk, true);
    assert encoder.output == old(encoder.output) + encoder.output[sent..];
    grouper.Put2(encoder.output[sent..], true);
    assert grouper.output == old(grouper.output) + grouper.output[passed..];
    decoder.Put2(grouper.output[passed..], true);
    ghost var e := Encoded(encoder.alphabet, encoder.bitsPerChar, encoder.padding, old(encoder.fed) + chunk);
    assert encoder.output == [] + e == e;
    ghost var g := Separated(grouper.groupSize, grouper.separator, e) + grouper.terminator;
    assert grouper.output == [] + Separated(grouper.groupSize, grouper.separator, e) + grouper.terminator == g;
  }

  /** A message in any chunks, through the three filters, comes out again. */
  method RoundTripInChunks(alphabet: seq<byte>, b: nat, caseInsensitive: bool, padding: int, groupSize: nat,
      separator: seq<byte>, terminator: seq<byte>, chunks: seq<seq<byte>>, last: seq<byte>) returns (decoded: seq<byte>)
    requires 1 <= b <= 7 && |alphabet| >= Pow2(b) && -1 <= padding < 256
    requires Distinct(alphabet, Pow2(b), caseInsensitive)
    requires Outside(alphabet, Pow2(b), caseInsensitive, separator)
    requires Outside(alphabet, Pow2(b), caseInsensitive, terminator)
    requires padding >= 0 ==> Outside(alphabet, Pow2(b), caseInsensitive, [padding])
    ensures decoded == ByteStrings.Joined(chunks) + last
  {
    hide Pow2, Distinct, Outside, Decoded, Encoded, Separated, LastClaim, Attached;
    var table := new int[256](_ => -1);
    InitializeDecodingLookupArray(table, alphabet, Pow2(b), caseInsensitive);
    var lookup: Lookup := table[..];
    RoundTripWithTable(lookup, alphabet, b, caseInsensitive, padding, groupSize, separator, terminator,
      ByteStrings.Joined(chunks) + last);
    var encoder := new Encoder(alphabet, b, padding);
    var grouper := new Grouper(groupSize, separator, terminator);
    var decoder := new Decoder(lookup, b);
    AttachedAtStart(encoder, grouper, decoder);
    assert chunks[..0] == [];
    for i := 0 to |chunks|
      invariant Attached(encoder, grouper, decoder) && encoder.fed == ByteStrings.Joined(chunks[..i])
    {
      ByteStrings.JoinedOneMore(chunks, i);
      PutChunk(encoder, grouper, decoder, chunks[i]);
    }
    assert chunks[..|chunks|] == chunks;
    PutLast(encoder, grouper, decoder, last);
    decoded := decoder.output;
  }

  lemma {:induction false} AttachedAtStart(encoder: Encoder, grouper: Grouper, decoder: Decoder)
    requires encoder.Valid() && grouper.Valid() && decoder.Valid() && encoder.outBuf != decoder.outBuf
    requires encoder.base == grouper.base == decoder.base == []
    requires encoder.output == grouper.output == encoder.fed == grouper.fed == decoder.fed == []
    ensures Attached(encoder, grouper, decoder)
  {
  }
}
