/** Headers that a program fills in: rf_wavheader_init, rf_wavheader_set_num_frames and what they leave for
    the encoder. */
module WavHeaderInit {
  import opened Pack
  import opened Residues
  import opened WavHeader
  import opened WavHeaderRoundTrip
  import opened Words

  datatype SampleFormat = Unknown | S16LE | S32LE | Float

  /** rf_wavheader_init, on a header that may hold anything; products wrap around as stored. */
  function Initialised(h: Header, sfreq: int, numChannels: int, format: SampleFormat): Header {
    var bytesPerSample := if format == S16LE then 2 else 4;
    var h1 := h.(
      chunkId := RIFF, chunkSize := 12 + 18 + 12 + 8, format := WAVE, fmtChunkId := FMT,
      fmtChunkSize := if format == Float then 18 else 16, audioFormat := if format == Float then 3 else 1,
      numChannels := numChannels % 0x1_0000, sampleRate := sfreq % WORD,
      byteRate := sfreq * bytesPerSample * numChannels % WORD, blockAlign := bytesPerSample * numChannels % 0x1_0000,
      bitsPerSample := bytesPerSample * 8, cbSize := 0, dataChunkId := DATA, dataChunkSize := 0);
    if format == Float then h1.(factChunkId := FACT, factChunkSize := 12, sampleLength := 0) else h1
  }

  /** rf_wavheader_get_format. */
  function Format(h: Header): SampleFormat {
    match h.audioFormat
    case 1 => if h.bitsPerSample == 16 then S16LE else if h.bitsPerSample == 32 then S32LE else Unknown
    case 3 => if h.bitsPerSample == 32 then Float else Unknown
    case 0xfffe => if h.bitsPerSample == 16 then S16LE else S32LE
    case _ => Unknown
  }

  /** Which headers describe which samples. */
  lemma FormatRead(h: Header)
    ensures Format(h) == S16LE <==> h.bitsPerSample == 16 && h.audioFormat in {1, 0xfffe}
    ensures Format(h) == S32LE <==>
              (h.bitsPerSample == 32 && h.audioFormat == 1) || (h.bitsPerSample != 16 && h.audioFormat == 0xfffe)
    ensures Format(h) == Float <==> h.bitsPerSample == 32 && h.audioFormat == 3
  {
  }

  /** rf_wavheader_validate succeeds. */
  predicate Valid(h: Header) {
    Acceptable(h) && h.fmtChunkId == FMT && h.dataChunkId == DATA
  }

  /** The arguments that the fields of a header can hold. */
  predicate InRange(sfreq: int, numChannels: int, format: SampleFormat) {
    && 0 <= sfreq < WORD && 0 <= numChannels
    && numChannels * (if format == S16LE then 2 else 4) < 0x1_0000
  }

  lemma SmallMultiple(n: int, k: int, m: nat)
    requires 0 <= n && 1 <= k && k * n < m
    ensures n % m == n && k * n % m == k * n
  {
    assert k * n >= n;
    assert 0 <= k * n;
  }

  /** rf_wavheader_init keeps what it is told, whatever the header held before: rate, channels and sample
      format can be read off the header, a block is one sample for each channel, and the byte rate is
      the size of the blocks of one second. */
  lemma InitialisedFormat(h: Header, sfreq: int, numChannels: int, format: SampleFormat)
    requires InRange(sfreq, numChannels, format)
    ensures var r := Initialised(h, sfreq, numChannels, format);
      && r.sampleRate == sfreq && r.numChannels == numChannels
      && Format(r) == (if format == Unknown then S32LE else format)
      && r.blockAlign * 8 == r.numChannels * r.bitsPerSample
      && r.byteRate == r.sampleRate * r.blockAlign % WORD
      && r.dataChunkSize == 0 && (format == Float ==> r.sampleLength == 0)
  {
    var k := if format == S16LE then 2 else 4;
    assert k * numChannels == numChannels * k;
    SmallMultiple(numChannels, k, 0x1_0000);
    assert sfreq * k * numChannels == sfreq * (k * numChannels);
  }

  lemma InitialisedAcceptable(h: Header, sfreq: int, numChannels: int, format: SampleFormat)
    ensures Acceptable(Initialised(h, sfreq, numChannels, format)) <==>
              format == Float || (28 + h.factChunkSize) % WORD <= 50
  {
  }

  /** It is what rf_wavheader_validate accepts, unless a fact chunk was there before that is too large. */
  lemma InitialisedValid(h: Header, sfreq: int, numChannels: int, format: SampleFormat)
    ensures Valid(Initialised(h, sfreq, numChannels, format)) <==>
              format == Float || (28 + h.factChunkSize) % WORD <= 50
  {
    InitialisedAcceptable(h, sfreq, numChannels, format);
  }

  /** It makes a sound header exactly if the fields that it does not touch were zero, or a fact chunk that
      was there before is small enough. */
  lemma InitialisedSound(h: Header, sfreq: int, numChannels: int, format: SampleFormat)
    requires Typed(h)
    ensures Sound(Initialised(h, sfreq, numChannels, format)) <==>
              && h.validBitsPerSample == 0 && h.channelMask == 0 && h.subFormat == Zeros(16)
              && (format != Float && h.factChunkId != FACT ==>
                    h.factChunkId == Zeros(4) && h.factChunkSize == 0 && h.sampleLength == 0)
              && (format != Float && h.factChunkId == FACT ==> (28 + h.factChunkSize) % WORD <= 50)
  {
    var r := Initialised(h, sfreq, numChannels, format);
    InitialisedShort(r);
    InitialisedAcceptable(h, sfreq, numChannels, format);
  }

  lemma InitialisedShort(h: Header)
    requires Typed(h) && h.fmtChunkSize <= 18 && h.cbSize == 0
    ensures |Encoding(h)| < HALF
  {
    DecodesData(h);
  }

  /** rf_wavheader_set_num_frames, with 32-bit arithmetic. */
  function WithFrames(h: Header, numFrames: nat): Header {
    h.(chunkSize := (h.chunkSize - h.dataChunkSize + numFrames * h.blockAlign) % WORD,
       dataChunkSize := numFrames * h.blockAlign % WORD, sampleLength := numFrames * h.numChannels % WORD)
  }

  lemma SubtractThenAdd(c: int, d: int, x: int, m: nat)
    requires m > 0
    ensures ((c - d + x) % m - x % m) % m == (c - d) % m
  {
    ModDifference(c - d + x, x, m);
  }

  /** Subtraction modulo m. */
  lemma ModDifference(a: int, b: int, m: nat)
    requires m > 0
    ensures (a % m - b % m) % m == (a - b) % m
  {
    var q := a / m - b / m;
    assert a - b == (a % m - b % m) + q * m by {
      assert a == a / m * m + a % m && b == b / m * m + b % m;
    }
    SameModulo(a % m - b % m, q, m);
  }

  lemma SameModulo(x: int, q: int, m: nat)
    requires m > 0
    ensures (x + q * m) % m == x % m
  {
    assert x + q * m == (x / m + q) * m + x % m;
    DivUnique((x + q * m) / m, (x + q * m) % m, x / m + q, x % m, m);
  }

  /** rf_wavheader_set_num_frames counts whole blocks and leaves the size of the header itself as it was,
      whatever number of frames was set before. */
  lemma FramesCounted(h: Header, numFrames: nat)
    ensures var r := WithFrames(h, numFrames);
      && (r.chunkSize - r.dataChunkSize) % WORD == (h.chunkSize - h.dataChunkSize) % WORD
      && (numFrames * h.blockAlign < WORD ==> r.dataChunkSize == numFrames * h.blockAlign)
      && (numFrames * h.blockAlign < WORD && h.blockAlign > 0 ==> r.dataChunkSize / r.blockAlign == numFrames)
      && (numFrames * h.numChannels < WORD ==> r.sampleLength == numFrames * h.numChannels)
  {
    SubtractThenAdd(h.chunkSize, h.dataChunkSize, numFrames * h.blockAlign, WORD);
    if numFrames * h.blockAlign < WORD && h.blockAlign > 0 {
      DivUnique(numFrames * h.blockAlign / h.blockAlign, numFrames * h.blockAlign % h.blockAlign, numFrames, 0,
                h.blockAlign);
    }
  }

  /** Only the last call counts. */
  lemma LastFrameCount(h: Header, m: nat, n: nat)
    ensures WithFrames(WithFrames(h, m), n) == WithFrames(h, n)
  {
    var r := WithFrames(h, m);
    FramesCounted(h, m);
    ModSum(r.chunkSize - r.dataChunkSize, h.chunkSize - h.dataChunkSize, n * h.blockAlign, WORD);
  }

  lemma ModSum(a: int, b: int, x: int, m: nat)
    requires m > 0 && a % m == b % m
    ensures (a + x) % m == (b + x) % m
  {
    var q := a / m - b / m;
    assert a + x == (b + x) + q * m by {
      assert a == a / m * m + a % m && b == b / m * m + b % m;
    }
    SameModulo(b + x, q, m);
  }

  lemma InitialisedSizes(h: Header, sfreq: int, numChannels: int, format: SampleFormat)
    requires InRange(sfreq, numChannels, format)
    ensures var r := Initialised(h, sfreq, numChannels, format);
      && r.chunkSize == 50 && r.dataChunkSize == 0 && r.numChannels == numChannels
      && r.blockAlign == numChannels * (if format == S16LE then 2 else 4)
  {
    var k := if format == S16LE then 2 else 4;
    assert k * numChannels == numChannels * k;
    SmallMultiple(numChannels, k, 0x1_0000);
  }

  lemma SamplesOfFrames(numFrames: nat, numChannels: nat, k: nat)
    requires k >= 1
    ensures numFrames * (numChannels * k) == numFrames * numChannels * k >= numFrames * numChannels >= 0
  {
  }

  /** A header prepared for some number of frames: so many blocks of data, and the first size, which starts
      at 50, has grown by them. */
  lemma InitialisedFrames(h: Header, sfreq: int, numChannels: int, format: SampleFormat, numFrames: nat)
    requires InRange(sfreq, numChannels, format)
    requires 50 + numFrames * (numChannels * (if format == S16LE then 2 else 4)) < WORD
    ensures var r := WithFrames(Initialised(h, sfreq, numChannels, format), numFrames);
      && r.dataChunkSize == numFrames * numChannels * (if format == S16LE then 2 else 4)
      && r.chunkSize == 50 + r.dataChunkSize && r.sampleLength == numFrames * numChannels
  {
    InitialisedSizes(h, sfreq, numChannels, format);
    SamplesOfFrames(numFrames, numChannels, if format == S16LE then 2 else 4);
  }

  /** It stores a sample length even if there is no fact chunk to hold it. Then the header does not survive
      the round trip unless that length is zero; otherwise only the size in the first chunk matters. */
  lemma WithFramesSound(h: Header, numFrames: nat)
    requires Sound(h)
    ensures Sound(WithFrames(h, numFrames)) <==>
              && (h.factChunkId != FACT ==> numFrames * h.numChannels % WORD == 0)
              && (h.chunkSize - h.dataChunkSize + numFrames * h.blockAlign) % WORD
                   >= (12 + h.fmtChunkSize + h.factChunkSize) % WORD
  {
    FramesKeepLength(h, numFrames);
  }

  lemma FramesKeepLength(h: Header, numFrames: nat)
    requires Typed(h)
    ensures Typed(WithFrames(h, numFrames)) && |Encoding(WithFrames(h, numFrames))| == |Encoding(h)|
  {
    DecodesData(h);
    DecodesData(WithFrames(h, numFrames));
  }

  /** By the RIFF format, the size in the first chunk is the number of bytes that follow it: the rest of the
      header and the data. That is what the two functions make it for floating point; for PCM, which has
      no fact chunk and a shorter format chunk, it is too large. */
  lemma FirstSizeExact(h: Header, sfreq: int, numChannels: int, format: SampleFormat, numFrames: nat)
    requires Typed(h) && InRange(sfreq, numChannels, format)
    requires 50 + numFrames * (numChannels * (if format == S16LE then 2 else 4)) < WORD
    ensures var r := WithFrames(Initialised(h, sfreq, numChannels, format), numFrames);
      && r.chunkSize + 8 >= |Encoding(r)| + r.dataChunkSize
      && (r.chunkSize + 8 == |Encoding(r)| + r.dataChunkSize <==> format == Float)
  {
    var i := Initialised(h, sfreq, numChannels, format);
    InitialisedFrames(h, sfreq, numChannels, format, numFrames);
    DecodesData(WithFrames(i, numFrames));
  }

  // ---------- a header byte by byte ----------

  /** The n bytes at an offset are the little-endian form of a number. */
  predicate Stores(e: seq<Byte>, off: nat, n: nat, v: nat) {
    off + n <= |e| && LittleEndian(e[off..off + n]) == v
  }

  predicate Reads(e: seq<Byte>, off: nat, s: seq<Byte>) {
    off + |s| <= |e| && e[off..off + |s|] == s
  }

  lemma StoresU16(e: seq<Byte>, off: nat)
    requires off + 2 <= |e|
    ensures Stores(e, off, 2, U16At(e, off))
  {
    U16IsLittleEndian(e[off..off + 2]);
  }

  lemma StoresU32(e: seq<Byte>, off: nat)
    requires off + 4 <= |e|
    ensures Stores(e, off, 4, U32At(e, off))
  {
    U32IsLittleEndian(e[off..off + 4]);
  }

  /** The fixed part of every header in bytes. */
  lemma HeadBytes(h: Header)
    requires Typed(h)
    ensures var e := Encoding(h);
      && Reads(e, 0, h.chunkId) && Stores(e, 4, 4, h.chunkSize) && Reads(e, 8, h.format)
      && Reads(e, 12, h.fmtChunkId) && Stores(e, 16, 4, h.fmtChunkSize) && Stores(e, 20, 2, h.audioFormat)
      && Stores(e, 22, 2, h.numChannels) && Stores(e, 24, 4, h.sampleRate) && Stores(e, 28, 4, h.byteRate)
      && Stores(e, 32, 2, h.blockAlign) && Stores(e, 34, 2, h.bitsPerSample)
  {
    var e := Encoding(h);
    DecodesHead(h);
    MinimumSize(h);
    StoresU32(e, 4);
    StoresU32(e, 16);
    StoresU16(e, 20);
    StoresU16(e, 22);
    StoresU32(e, 24);
    StoresU32(e, 28);
    StoresU16(e, 32);
    StoresU16(e, 34);
  }

  lemma DataBytes(h: Header)
    requires Typed(h) && h.fmtChunkSize < 18 && h.factChunkId != FACT
    ensures var e := Encoding(h); |e| == 44 && Reads(e, 36, h.dataChunkId) && Stores(e, 40, 4, h.dataChunkSize)
  {
    DecodesData(h);
    StoresU32(Encoding(h), 40);
  }

  /** What stands for an extension that the encoder does not know is zero. */
  lemma PaddingBytes(h: Header)
    requires Typed(h) && h.fmtChunkSize >= 18 && h.cbSize != 22
    ensures Stores(Encoding(h), 36, 2, h.cbSize)
    ensures |Encoding(h)| >= 20 + h.fmtChunkSize && forall k :: 38 <= k < 20 + h.fmtChunkSize ==> Encoding(h)[k] == 0
  {
    ExtensionLayout(h);
    DecodesExtension(h);
    StoresU16(Encoding(h), 36);
    PaddingField(h);
    forall k | 38 <= k < 20 + h.fmtChunkSize ensures Encoding(h)[k] == 0 {
      assert Encoding(h)[k] == Encoding(h)[38..20 + h.fmtChunkSize][k - 38];
    }
  }

  lemma PaddingField(h: Header)
    requires Typed(h) && h.fmtChunkSize >= 18 && h.cbSize != 22
    ensures |Encoding(h)| >= 20 + h.fmtChunkSize
    ensures Encoding(h)[38..20 + h.fmtChunkSize] == Zeros(h.fmtChunkSize - 18)
  {
    ExtensionLayout(h);
    assert Fields(h)[12] == Extension(h)[1];
    LiesNext(h, 11, 36, 2);
  }

  /** rf_wavheader_validate accepts a header exactly if the four identifiers can be read off its encoding,
      besides the test of the sizes. */
  lemma ValidBytes(h: Header)
    requires Typed(h) && Canonical(h)
    ensures Valid(h) <==>
              var e := Encoding(h);
              && Reads(e, 0, Ascii("RIFF")) && Reads(e, 8, Ascii("WAVE")) && Reads(e, 12, Ascii("fmt "))
              && Reads(e, DataAt(e), Ascii("data"))
              && h.chunkSize >= (12 + h.fmtChunkSize + h.factChunkSize) % WORD
  {
    Identifiers();
    HeadBytes(h);
    DataIdentifier(h);
  }

  lemma DataIdentifier(h: Header)
    requires Typed(h) && Canonical(h)
    ensures Reads(Encoding(h), DataAt(Encoding(h)), h.dataChunkId)
  {
    DecodesExtension(h);
    DecodesData(h);
  }

  /** The 44 bytes of a header for integer samples. */
  lemma PcmBytes(h: Header, sfreq: int, numChannels: int, format: SampleFormat)
    requires Typed(h) && h.factChunkId != FACT && InRange(sfreq, numChannels, format) && format != Float
    ensures var e := Encoding(Initialised(h, sfreq, numChannels, format)); var k := if format == S16LE then 2 else 4;
      && |e| == 44
      && Reads(e, 0, Ascii("RIFF")) && Stores(e, 4, 4, 50) && Reads(e, 8, Ascii("WAVE"))
      && Reads(e, 12, Ascii("fmt ")) && Stores(e, 16, 4, 16) && Stores(e, 20, 2, 1) && Stores(e, 22, 2, numChannels)
      && Stores(e, 24, 4, sfreq) && Stores(e, 28, 4, sfreq * k * numChannels % WORD)
      && Stores(e, 32, 2, numChannels * k) && Stores(e, 34, 2, 8 * k)
      && Reads(e, 36, Ascii("data")) && Stores(e, 40, 4, 0)
  {
    InitialisedSizes(h, sfreq, numChannels, format);
    Identifiers();
    var r := Initialised(h, sfreq, numChannels, format);
    assert r.sampleRate == sfreq;
    HeadBytes(r);
    DataBytes(r);
  }

  const BLANK :=
    Header(Zeros(4), 0, Zeros(4), Zeros(4), 0, 0, 0, 0, 0, 0, 0, 0, 0, 0, Zeros(16), Zeros(4), 0, 0, Zeros(4), 0)

  /** 16-bit stereo at 44.1 kHz, as rf_wavheader_init prepares it in zeroed memory. */
  const PCM := Initialised(BLANK, 44100, 2, S16LE)

  /** The ordinary use for PCM: after the first frame has been counted, the header no longer survives. */
  lemma FrameCountLost()
    ensures Sound(PCM) && Typed(WithFrames(PCM, 1))
    ensures !DecodesTo(Encoding(WithFrames(PCM, 1)), WithFrames(PCM, 1))
  {
    InitialisedSound(BLANK, 44100, 2, S16LE);
    assert Zeros(4)[0] != FACT[0];
    SampleLengthLost(PCM, 1);
  }

  /** Without a fact chunk, a sample length that is not zero gets lost. */
  lemma SampleLengthLost(h: Header, numFrames: nat)
    requires Sound(h) && h.factChunkId != FACT && numFrames * h.numChannels % WORD != 0
    ensures Typed(WithFrames(h, numFrames))
    ensures !DecodesTo(Encoding(WithFrames(h, numFrames)), WithFrames(h, numFrames))
  {
    WithFramesSound(h, numFrames);
    RoundTrip(WithFrames(h, numFrames));
  }
}
