/** What the WAV header encoder and decoder promise each other. */
module WavHeaderRoundTrip {
  import opened Pack
  import opened WavHeader
  import opened Words

  // ---------- where the fields of an encoding are ----------

  /** Field j of a header occupies the n bytes at an offset. */
  ghost predicate Lies(h: Header, j: nat, off: nat, n: nat) {
    && j < |Fields(h)| && |Fields(h)[j]| == n && |Flat(Fields(h)[..j])| == off
    && FieldAt(Encoding(h), off, n) == Fields(h)[j] && off + n <= |Encoding(h)|
  }

  lemma LiesFirst(h: Header)
    requires Typed(h)
    ensures Lies(h, 0, 0, 4)
  {
    FlatAt(Fields(h), 0);
    assert Fields(h)[0] == h.chunkId;
  }

  lemma LiesNext(h: Header, j: nat, off: nat, n: nat)
    requires Lies(h, j, off, n) && j + 1 < |Fields(h)|
    ensures Lies(h, j + 1, off + n, |Fields(h)[j + 1]|)
  {
    FlatAt(Fields(h), j);
    FlatAt(Fields(h), j + 1);
  }

  lemma IdsLayout(h: Header)
    requires Typed(h)
    ensures Lies(h, 0, 0, 4) && Lies(h, 1, 4, 4) && Lies(h, 2, 8, 4) && Lies(h, 3, 12, 4) && Lies(h, 4, 16, 4)
    ensures Lies(h, 5, 20, 2)
  {
    var fs, head := Fields(h), Head(h);
    assert forall j :: 0 <= j < 6 ==> fs[j] == head[j];
    LiesFirst(h);
    LiesNext(h, 0, 0, 4);
    LiesNext(h, 1, 4, 4);
    LiesNext(h, 2, 8, 4);
    LiesNext(h, 3, 12, 4);
    LiesNext(h, 4, 16, 4);
  }

  lemma FormatLayout(h: Header)
    requires Typed(h) && Lies(h, 5, 20, 2)
    ensures Lies(h, 6, 22, 2) && Lies(h, 7, 24, 4) && Lies(h, 8, 28, 4) && Lies(h, 9, 32, 2) && Lies(h, 10, 34, 2)
  {
    var fs, head := Fields(h), Head(h);
    assert forall j :: 5 <= j < 11 ==> fs[j] == head[j];
    LiesNext(h, 5, 20, 2);
    LiesNext(h, 6, 22, 2);
    LiesNext(h, 7, 24, 4);
    LiesNext(h, 8, 28, 4);
    LiesNext(h, 9, 32, 2);
  }

  lemma HeadLayout(h: Header)
    requires Typed(h)
    ensures Lies(h, 0, 0, 4) && Lies(h, 1, 4, 4) && Lies(h, 2, 8, 4) && Lies(h, 3, 12, 4) && Lies(h, 4, 16, 4)
    ensures Lies(h, 5, 20, 2) && Lies(h, 6, 22, 2) && Lies(h, 7, 24, 4) && Lies(h, 8, 28, 4)
    ensures Lies(h, 9, 32, 2) && Lies(h, 10, 34, 2)
  {
    IdsLayout(h);
    FormatLayout(h);
  }

  /** The format chunk of a header ends where a decoder that knows cbSize expects it. */
  function BodyEnd(h: Header): nat {
    FmtEnd(h.fmtChunkSize, h.cbSize)
  }

  /** The first field behind the fixed ones. */
  lemma AfterHead(h: Header)
    requires Typed(h)
    ensures |Fields(h)| > 11 && Lies(h, 11, 36, |Fields(h)[11]|)
  {
    HeadLayout(h);
    LiesNext(h, 10, 34, 2);
  }

  lemma ExtensionLayout(h: Header)
    requires Typed(h)
    ensures h.fmtChunkSize >= 18 ==> Lies(h, 11, 36, 2)
    ensures h.fmtChunkSize >= 18 && h.cbSize == 22 ==> Lies(h, 12, 38, 2) && Lies(h, 13, 40, 4) && Lies(h, 14, 44, 16)
    ensures Lies(h, 11 + |Extension(h)|, BodyEnd(h), 4)
  {
    AfterHead(h);
    if h.fmtChunkSize >= 18 {
      assert Fields(h)[11] == Extension(h)[0] && Fields(h)[12] == Extension(h)[1];
      LiesNext(h, 11, 36, 2);
      if h.cbSize == 22 {
        ExtendedLayout(h);
      } else {
        LiesNext(h, 12, 38, h.fmtChunkSize - 18);
      }
    }
  }

  lemma ExtendedLayout(h: Header)
    requires Typed(h) && h.fmtChunkSize >= 18 && h.cbSize == 22 && Lies(h, 12, 38, 2)
    ensures Lies(h, 13, 40, 4) && Lies(h, 14, 44, 16) && Lies(h, 15, 60, 4)
  {
    assert Fields(h)[13] == Extension(h)[2] && Fields(h)[14] == Extension(h)[3];
    LiesNext(h, 12, 38, 2);
    LiesNext(h, 13, 40, 4);
    LiesNext(h, 14, 44, 16);
  }

  lemma DataLayout(h: Header)
    requires Typed(h)
    ensures var j, d := 11 + |Extension(h)|, BodyEnd(h);
      if h.factChunkId == FACT
      then Lies(h, j, d, 4) && Lies(h, j + 1, d + 4, 4) && Lies(h, j + 2, d + 8, 4)
           && Lies(h, j + 3, d + 12, 4) && Lies(h, j + 4, d + 16, 4) && |Encoding(h)| == d + 20
      else Lies(h, j, d, 4) && Lies(h, j + 1, d + 4, 4) && |Encoding(h)| == d + 8
  {
    ExtensionLayout(h);
    var fs, j, d := Fields(h), 11 + |Extension(h)|, BodyEnd(h);
    var rest := FactChunk(h) + DataChunk(h);
    assert forall i :: 0 <= i < |rest| ==> fs[j + i] == rest[i];
    LiesNext(h, j, d, 4);
    if h.factChunkId == FACT {
      LiesNext(h, j + 1, d + 4, 4);
      LiesNext(h, j + 2, d + 8, 4);
      LiesNext(h, j + 3, d + 12, 4);
    }
    assert fs[..|fs|] == fs;
    FlatAt(fs, |fs| - 1);
  }

  // ---------- decoding an encoding ----------

  lemma DecodesHead(h: Header)
    requires Typed(h)
    ensures var e := Encoding(h);
      && FieldAt(e, 0, 4) == h.chunkId && U32At(e, 4) == h.chunkSize && FieldAt(e, 8, 4) == h.format
      && FieldAt(e, 12, 4) == h.fmtChunkId && U32At(e, 16) == h.fmtChunkSize && U16At(e, 20) == h.audioFormat
      && U16At(e, 22) == h.numChannels && U32At(e, 24) == h.sampleRate && U32At(e, 28) == h.byteRate
      && U16At(e, 32) == h.blockAlign && U16At(e, 34) == h.bitsPerSample
  {
    HeadLayout(h);
    var fs, head := Fields(h), Head(h);
    assert forall j :: 0 <= j < 11 ==> fs[j] == head[j];
    U32RoundTrip(h.chunkSize);
    U32RoundTrip(h.fmtChunkSize);
    U16RoundTrip(h.audioFormat);
    U16RoundTrip(h.numChannels);
    U32RoundTrip(h.sampleRate);
    U32RoundTrip(h.byteRate);
    U16RoundTrip(h.blockAlign);
    U16RoundTrip(h.bitsPerSample);
  }

  lemma DecodesExtension(h: Header)
    requires Typed(h)
    ensures var e := Encoding(h);
      && CbSize(e) == (if h.fmtChunkSize < 18 then 0 else h.cbSize)
      && (Extended(e) <==> h.fmtChunkSize >= 18 && h.cbSize == 22)
      && FactAt(e) == BodyEnd(h)
      && (Extended(e) ==> U16At(e, 38) == h.validBitsPerSample && U32At(e, 40) == h.channelMask
                          && FieldAt(e, 44, 16) == h.subFormat)
  {
    DecodesHead(h);
    ExtensionLayout(h);
    var fs, ext := Fields(h), Extension(h);
    assert forall j :: 0 <= j < |ext| ==> fs[11 + j] == ext[j];
    U16RoundTrip(h.cbSize);
    U16RoundTrip(h.validBitsPerSample);
    U32RoundTrip(h.channelMask);
  }

  /** The field behind the format chunk is the fact chunk's identifier or the data chunk's. */
  lemma DecodesData(h: Header)
    requires Typed(h)
    ensures var e, d := Encoding(h), BodyEnd(h);
      && FieldAt(e, d, 4) == (if h.factChunkId == FACT then FACT else h.dataChunkId)
      && (h.factChunkId == FACT ==>
            && U32At(e, d + 4) == h.factChunkSize && U32At(e, d + 8) == h.sampleLength
            && FieldAt(e, d + 12, 4) == h.dataChunkId && U32At(e, d + 16) == h.dataChunkSize && |e| == d + 20)
      && (h.factChunkId != FACT ==> U32At(e, d + 4) == h.dataChunkSize && |e| == d + 8)
  {
    DataLayout(h);
    var fs, j := Fields(h), 11 + |Extension(h)|;
    var rest := FactChunk(h) + DataChunk(h);
    assert forall i :: 0 <= i < |rest| ==> fs[j + i] == rest[i];
    U32RoundTrip(h.factChunkSize);
    U32RoundTrip(h.sampleLength);
    U32RoundTrip(h.dataChunkSize);
  }

  const MIN_SIZE := 44

  /** No header is shorter than the minimal size, which is that of PCM data without a fact chunk. */
  lemma MinimumSize(h: Header)
    requires Typed(h)
    ensures |Encoding(h)| >= MIN_SIZE
    ensures |Encoding(h)| == MIN_SIZE <==> h.fmtChunkSize < 18 && h.factChunkId != FACT
  {
    DecodesData(h);
  }

  /** What an encoding does not contain is zero, and a data chunk does not pass for a fact chunk. */
  predicate Canonical(h: Header) {
    && (h.fmtChunkSize < 18 ==> h.cbSize == 0)
    && (h.fmtChunkSize < 18 || h.cbSize != 22 ==>
          h.validBitsPerSample == 0 && h.channelMask == 0 && h.subFormat == Zeros(16))
    && (h.factChunkId != FACT ==>
          h.factChunkId == Zeros(4) && h.factChunkSize == 0 && h.sampleLength == 0 && h.dataChunkId != FACT)
  }

  lemma DecodesCanonical(h: Header)
    requires Typed(h)
    ensures Decoded(Encoding(h)) == h <==> Canonical(h)
    ensures Canonical(h) ==> Consumed(Encoding(h)) == |Encoding(h)|
  {
    DecodesHead(h);
    DecodesExtension(h);
    DecodesData(h);
    if Decoded(Encoding(h)) == h {
      assert h.factChunkId != FACT && h.dataChunkId == FACT ==> Decoded(Encoding(h)).factChunkId == FACT;
    }
  }

  /** Decoding these bytes returns this header and their length. */
  predicate DecodesTo(bytes: seq<Byte>, h: Header) {
    Decoded(bytes) == h && Verdict(bytes) == |bytes|
  }

  /** The headers that survive the round trip. */
  predicate Sound(h: Header) {
    Typed(h) && Acceptable(h) && Canonical(h) && |Encoding(h)| < HALF
  }

  lemma DecodesToIff(e: seq<Byte>, h: Header)
    requires Decoded(e) == h <==> Canonical(h)
    requires Canonical(h) ==> Consumed(e) == |e|
    ensures DecodesTo(e, h) <==> Acceptable(h) && Canonical(h) && |e| < HALF
  {
  }

  /** The round trip: an encoded header decodes to itself, with the same length returned, exactly if the
      decoder's checks accept it, it is canonical, and its length fits an int. */
  lemma RoundTrip(h: Header)
    requires Typed(h)
    ensures DecodesTo(Encoding(h), h) <==> Sound(h)
  {
    DecodesCanonical(h);
    DecodesToIff(Encoding(h), h);
  }

  lemma WrittenInFull(before: seq<Byte>, h: Header, sz: nat)
    requires |Encoding(h)| <= sz == |before|
    ensures Overlay(before, Fields(h), sz)[..|Encoding(h)|] == Encoding(h)
  {
    OverlayWholeFields(before, Fields(h), sz);
    FittingAll(Fields(h), sz);
    assert Fields(h)[..|Fields(h)|] == Fields(h);
  }

  lemma ShortLength(n: nat)
    requires n < HALF
    ensures Signed32(n) == n
  {
  }

  method EncodeWhole(h: Header, buf: array<Byte>) returns (n: int)
    requires Typed(h) && |Encoding(h)| < HALF && |Encoding(h)| <= buf.Length
    modifies buf
    ensures n == |Encoding(h)| && buf[..n] == Encoding(h)
  {
    WrittenInFull(buf[..], h, buf.Length);
    n := Encode(h, buf, buf.Length);
    ShortLength(|Encoding(h)|);
  }

  /** Through the memory of the program: encode into a buffer that is large enough, then decode. */
  method EncodeThenDecode(h: Header, buf: array<Byte>) returns (r: int, wh: Header)
    requires Sound(h) && |Encoding(h)| <= buf.Length
    modifies buf
    ensures wh == h && r == |Encoding(h)|
  {
    RoundTrip(h);
    var n := EncodeWhole(h, buf);
    r, wh := Decode(buf, n);
    assert DecodesTo(buf[..n], h);
  }

  // ---------- which bytes are accepted ----------

  /** The decoder accepts exactly the bytes that begin with RIFF, a size and WAVE, where the size is at least
      twelve more than those of the format chunk and of the fact chunk, if there is one, modulo 2^32. */
  lemma AcceptedExactly(bytes: seq<Byte>)
    ensures Verdict(bytes) ==
              if && |bytes| >= 12 && bytes[..4] == Ascii("RIFF") && bytes[8..12] == Ascii("WAVE")
                 && LittleEndian(bytes[4..8])
                    >= (12 + U32At(bytes, 16) + if HasFact(bytes) then U32At(bytes, FactAt(bytes) + 4) else 0) % WORD
              then Signed32(Consumed(bytes)) else -EINVAL
  {
    IdentifiersRead(bytes);
    if |bytes| >= 12 {
      U32IsLittleEndian(bytes[4..8]);
    }
  }

  lemma IdentifiersRead(bytes: seq<Byte>)
    ensures FieldAt(bytes, 0, 4) == RIFF && FieldAt(bytes, 8, 4) == WAVE
            <==> |bytes| >= 12 && bytes[..4] == Ascii("RIFF") && bytes[8..12] == Ascii("WAVE")
  {
    Identifiers();
    assert Zeros(4)[0] != WAVE[0];
  }

  // ---------- truncated headers ----------

  lemma FieldOfPrefix(e: seq<Byte>, L: nat, off: nat, n: nat)
    requires L <= |e|
    ensures FieldAt(e[..L], off, n) == if off + n <= L then FieldAt(e, off, n) else Zeros(n)
  {
  }

  /** A cut before cbSize hides the extension; then a format chunk size close to 2^32 makes the length that
      the decoder computes wrap around in an int. */
  predicate WrapsAround(h: Header, L: nat) {
    && h.cbSize == 22 && 20 <= L < 38
    && h.fmtChunkSize >= WORD - 28 && h.fmtChunkSize + 28 - WORD <= L
    && h.chunkSize >= (12 + h.fmtChunkSize) % WORD
  }

  /** What a decoder makes of a prefix of an encoding. */
  lemma TruncatedStart(h: Header, L: nat)
    requires Typed(h) && L < |Encoding(h)|
    ensures var e := Encoding(h)[..L];
      && (L < 12 ==> !Acceptable(Decoded(e)))
      && U32At(e, 16) == (if L < 20 then 0 else h.fmtChunkSize)
      && CbSize(e) == (if L < 38 || h.fmtChunkSize < 18 then 0 else h.cbSize)
      && Decoded(e).fmtChunkSize == U32At(e, 16)
  {
    var e := Encoding(h);
    FieldOfPrefix(e, L, 0, 4);
    FieldOfPrefix(e, L, 8, 4);
    FieldOfPrefix(e, L, 16, 4);
    FieldOfPrefix(e, L, 36, 2);
    DecodesHead(h);
    DecodesExtension(h);
  }

  /** The decoder always runs past a cut, and then no further than the whole header, unless the cut hides
      an extension. */
  lemma TruncatedLength(h: Header, L: nat)
    requires Typed(h) && Canonical(h) && L < |Encoding(h)|
    ensures var e := Encoding(h)[..L];
      && Consumed(e) > L
      && if 20 <= L < 38 && h.fmtChunkSize >= 18 then Consumed(e) == h.fmtChunkSize + 28 && !HasFact(e)
         else Consumed(e) <= |Encoding(h)|
  {
    var e, d := Encoding(h), FactAt(Encoding(h)[..L]);
    TruncatedStart(h, L);
    FieldOfPrefix(e, L, d, 4);
    DecodesData(h);
    assert Zeros(4)[0] != FACT[0];
  }

  /** The result tells that bytes are missing. */
  predicate Detected(bytes: seq<Byte>) {
    Verdict(bytes) < 0 || Verdict(bytes) > |bytes|
  }

  lemma LongEnough(e: seq<Byte>)
    requires |e| < Consumed(e) < HALF
    ensures Detected(e)
  {
    ShortLength(Consumed(e));
  }

  /** Only an extension allows a format chunk size that is larger than the header. */
  lemma ShortEncoding(h: Header)
    requires Typed(h) && h.fmtChunkSize >= 18 && h.cbSize != 22
    ensures h.fmtChunkSize + 28 <= |Encoding(h)|
  {
    DecodesData(h);
  }

  /** A decoder that does not see the extension skips as many bytes as the format chunk size says. */
  lemma HiddenExtension(h: Header, L: nat)
    requires Sound(h) && L < |Encoding(h)| && 20 <= L < 38 && h.fmtChunkSize >= 18
    ensures Detected(Encoding(h)[..L]) <==> !WrapsAround(h, L)
  {
    var e := Encoding(h)[..L];
    TruncatedStart(h, L);
    TruncatedLength(h, L);
    FieldOfPrefix(Encoding(h), L, 0, 4);
    FieldOfPrefix(Encoding(h), L, 4, 4);
    FieldOfPrefix(Encoding(h), L, 8, 4);
    DecodesHead(h);
    if h.cbSize != 22 {
      ShortEncoding(h);
    }
    HiddenVerdict(e, h);
  }

  lemma HiddenVerdict(e: seq<Byte>, h: Header)
    requires Typed(h) && h.chunkId == RIFF && h.format == WAVE && h.fmtChunkSize >= 18
    requires FieldAt(e, 0, 4) == RIFF && U32At(e, 4) == h.chunkSize && FieldAt(e, 8, 4) == WAVE
    requires U32At(e, 16) == h.fmtChunkSize && Consumed(e) == h.fmtChunkSize + 28 && !HasFact(e) && 20 <= |e| < 38
    requires h.cbSize != 22 ==> h.fmtChunkSize + 28 < HALF
    ensures Detected(e) <==> !WrapsAround(h, |e|)
  {
  }

  /** Decoding a truncated header fails or returns more than the number of bytes supplied, exactly unless
      the length wraps around. */
  lemma TruncationDetected(h: Header, L: nat)
    requires Sound(h) && L < |Encoding(h)|
    ensures Detected(Encoding(h)[..L]) <==> !WrapsAround(h, L)
  {
    if 20 <= L < 38 && h.fmtChunkSize >= 18 {
      HiddenExtension(h, L);
    } else {
      TruncatedLength(h, L);
      LongEnough(Encoding(h)[..L]);
    }
  }

  const SAMPLE := Header(RIFF, WORD - 1, WAVE, FMT, WORD - 18, 0xfffe, 2, 44100, 176400, 4, 16,
                         22, 16, 3, Zeros(16), Zeros(4), 0, 0, DATA, 0)

  /** The condition is needed: here is a header whose first 30 bytes decode to a length of 10. */
  lemma TruncationMissed()
    ensures Sound(SAMPLE) && 30 < |Encoding(SAMPLE)|
    ensures WrapsAround(SAMPLE, 30) && !Detected(Encoding(SAMPLE)[..30])
  {
    DecodesData(SAMPLE);
    TruncationDetected(SAMPLE, 30);
  }
}
