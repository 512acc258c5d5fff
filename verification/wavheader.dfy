/** The WAV header of librfn/wavheader.c: encoder, decoder and how they fit together. The format is RIFF
    WAVE of IBM and Microsoft's Multimedia Programming Interface and Data Specifications 1.0. */
module WavHeader {
  import opened Pack
  import opened Words
  import opened Wrappers

  const RIFF: seq<Byte> := [0x52, 0x49, 0x46, 0x46]
  const WAVE: seq<Byte> := [0x57, 0x41, 0x56, 0x45]
  const FMT: seq<Byte> := [0x66, 0x6d, 0x74, 0x20]
  const FACT: seq<Byte> := [0x66, 0x61, 0x63, 0x74]
  const DATA: seq<Byte> := [0x64, 0x61, 0x74, 0x61]
  const EINVAL := 22

  function Ascii(s: string): seq<Byte>
    requires forall i :: 0 <= i < |s| ==> s[i] < 128 as char
  {
    seq(|s|, i requires 0 <= i < |s| => s[i] as int)
  }

  lemma Identifiers()
    ensures RIFF == Ascii("RIFF") && WAVE == Ascii("WAVE") && FMT == Ascii("fmt ") && FACT == Ascii("fact")
    ensures DATA == Ascii("data")
  {
  }

  datatype Header = Header(
    chunkId: seq<Byte>, chunkSize: nat, format: seq<Byte>,
    fmtChunkId: seq<Byte>, fmtChunkSize: nat, audioFormat: nat, numChannels: nat, sampleRate: nat,
    byteRate: nat, blockAlign: nat, bitsPerSample: nat,
    cbSize: nat, validBitsPerSample: nat, channelMask: nat, subFormat: seq<Byte>,
    factChunkId: seq<Byte>, factChunkSize: nat, sampleLength: nat,
    dataChunkId: seq<Byte>, dataChunkSize: nat)

  /** The widths of the fields. */
  predicate Typed(h: Header) {
    && |h.chunkId| == |h.format| == |h.fmtChunkId| == |h.factChunkId| == |h.dataChunkId| == 4
    && |h.subFormat| == 16
    && h.chunkSize < WORD && h.fmtChunkSize < WORD && h.sampleRate < WORD && h.byteRate < WORD
    && h.channelMask < WORD && h.factChunkSize < WORD && h.sampleLength < WORD && h.dataChunkSize < WORD
    && h.audioFormat < 0x1_0000 && h.numChannels < 0x1_0000 && h.blockAlign < 0x1_0000
    && h.bitsPerSample < 0x1_0000 && h.cbSize < 0x1_0000 && h.validBitsPerSample < 0x1_0000
  }

  // ---------- the layout of a header ----------

  function Head(h: Header): seq<seq<Byte>> {
    [h.chunkId, U32Bytes(h.chunkSize), h.format,
     h.fmtChunkId, U32Bytes(h.fmtChunkSize), U16Bytes(h.audioFormat), U16Bytes(h.numChannels),
     U32Bytes(h.sampleRate), U32Bytes(h.byteRate), U16Bytes(h.blockAlign), U16Bytes(h.bitsPerSample)]
  }

  /** What follows in a format chunk that is longer than the 16 bytes for PCM. */
  function Extension(h: Header): seq<seq<Byte>> {
    if h.fmtChunkSize < 18 then []
    else if h.cbSize == 22
    then [U16Bytes(h.cbSize), U16Bytes(h.validBitsPerSample), U32Bytes(h.channelMask), h.subFormat]
    else [U16Bytes(h.cbSize), Zeros(h.fmtChunkSize - 18)]
  }

  function FactChunk(h: Header): seq<seq<Byte>> {
    if h.factChunkId == FACT then [h.factChunkId, U32Bytes(h.factChunkSize), U32Bytes(h.sampleLength)] else []
  }

  function DataChunk(h: Header): seq<seq<Byte>> {
    [h.dataChunkId, U32Bytes(h.dataChunkSize)]
  }

  function Fields(h: Header): seq<seq<Byte>> {
    Head(h) + Extension(h) + FactChunk(h) + DataChunk(h)
  }

  function Encoding(h: Header): seq<Byte> {
    Flat(Fields(h))
  }

  // ---------- what a decoder reads ----------

  function U16At(bytes: seq<Byte>, off: nat): nat {
    U16Of(FieldAt(bytes, off, 2))
  }

  function U32At(bytes: seq<Byte>, off: nat): nat {
    U32Of(FieldAt(bytes, off, 4))
  }

  /** Where the format chunk ends, for the decoder. */
  function FmtEnd(fmtChunkSize: nat, cbSize: nat): nat {
    if fmtChunkSize < 18 then 36 else if cbSize == 22 then 60 else 20 + fmtChunkSize
  }

  function CbSize(bytes: seq<Byte>): nat {
    if U32At(bytes, 16) < 18 then 0 else U16At(bytes, 36)
  }

  predicate Extended(bytes: seq<Byte>) {
    U32At(bytes, 16) >= 18 && U16At(bytes, 36) == 22
  }

  function FactAt(bytes: seq<Byte>): nat {
    FmtEnd(U32At(bytes, 16), CbSize(bytes))
  }

  predicate HasFact(bytes: seq<Byte>) {
    FieldAt(bytes, FactAt(bytes), 4) == FACT
  }

  function DataAt(bytes: seq<Byte>): nat {
    if HasFact(bytes) then FactAt(bytes) + 12 else FactAt(bytes)
  }

  function Consumed(bytes: seq<Byte>): nat {
    DataAt(bytes) + 8
  }

  function Decoded(bytes: seq<Byte>): Header {
    var d, e := FactAt(bytes), DataAt(bytes);
    Header(FieldAt(bytes, 0, 4), U32At(bytes, 4), FieldAt(bytes, 8, 4),
           FieldAt(bytes, 12, 4), U32At(bytes, 16), U16At(bytes, 20), U16At(bytes, 22), U32At(bytes, 24),
           U32At(bytes, 28), U16At(bytes, 32), U16At(bytes, 34),
           CbSize(bytes), if Extended(bytes) then U16At(bytes, 38) else 0,
           if Extended(bytes) then U32At(bytes, 40) else 0,
           if Extended(bytes) then FieldAt(bytes, 44, 16) else Zeros(16),
           if HasFact(bytes) then FACT else Zeros(4), if HasFact(bytes) then U32At(bytes, d + 4) else 0,
           if HasFact(bytes) then U32At(bytes, d + 8) else 0,
           FieldAt(bytes, e, 4), U32At(bytes, e + 4))
  }

  /** The decoder's basic validation; the sum is a 32-bit one. */
  predicate Acceptable(h: Header) {
    && h.chunkId == RIFF && h.format == WAVE
    && h.chunkSize >= (12 + h.fmtChunkSize + h.factChunkSize) % WORD
  }

  /** The return value of the decoder. */
  function Verdict(bytes: seq<Byte>): int {
    if Acceptable(Decoded(bytes)) then Signed32(Consumed(bytes)) else -EINVAL
  }

  // ---------- encoder and decoder ----------

  /** The size minus what remains, in the mixture of types that C computes it in. */
  lemma SizeMinusRemaining(sz: nat, p: nat)
    ensures Signed32(sz - Signed32(sz - p)) == Signed32(p)
  {
  }

  method EncodeHead(h: Header, pack: Cursor)
    requires Typed(h) && pack.Packing()
    modifies pack, pack.buf
    ensures pack.Packing() && pack.fields == old(pack.fields) + Head(h)
  {
    EncodeIds(h, pack);
    EncodeFormat(h, pack);
  }

  method EncodeIds(h: Header, pack: Cursor)
    requires Typed(h) && pack.Packing()
    modifies pack, pack.buf
    ensures pack.Packing() && pack.fields == old(pack.fields) + Head(h)[..5]
  {
    pack.PackBytes(Some(h.chunkId), 4);
    pack.PackU32le(h.chunkSize);
    pack.PackBytes(Some(h.format), 4);

    pack.PackBytes(Some(h.fmtChunkId), 4);
    pack.PackU32le(h.fmtChunkSize);
  }

  method EncodeFormat(h: Header, pack: Cursor)
    requires Typed(h) && pack.Packing()
    modifies pack, pack.buf
    ensures pack.Packing() && pack.fields == old(pack.fields) + Head(h)[5..]
  {
    pack.PackU16le(h.audioFormat);
    pack.PackU16le(h.numChannels);
    pack.PackU32le(h.sampleRate);
    pack.PackU32le(h.byteRate);
    pack.PackU16le(h.blockAlign);
    pack.PackU16le(h.bitsPerSample);
  }

  method EncodeExtension(h: Header, pack: Cursor)
    requires Typed(h) && pack.Packing()
    modifies pack, pack.buf
    ensures pack.Packing() && pack.fields == old(pack.fields) + Extension(h)
  {
    if h.fmtChunkSize >= 18 {
      pack.PackU16le(h.cbSize);
      if 22 == h.cbSize {
        pack.PackU16le(h.validBitsPerSample);
        pack.PackU32le(h.channelMask);
        pack.PackBytes(Some(h.subFormat), 16);
      } else {
        pack.PackBytes(None, h.fmtChunkSize - 18);
      }
    }
  }

  method EncodeFactAndData(h: Header, pack: Cursor)
    requires Typed(h) && pack.Packing()
    modifies pack, pack.buf
    ensures pack.Packing() && pack.fields == old(pack.fields) + FactChunk(h) + DataChunk(h)
  {
    if FACT == h.factChunkId {
      pack.PackBytes(Some(h.factChunkId), 4);
      pack.PackU32le(h.factChunkSize);
      pack.PackU32le(h.sampleLength);
    }
    pack.PackBytes(Some(h.dataChunkId), 4);
    pack.PackU32le(h.dataChunkSize);
  }

  /** rf_wavheader_encode. The result does not depend on the size of the buffer. */
  method Encode(h: Header, p: array<Byte>, sz: nat) returns (r: int)
    requires Typed(h) && sz <= p.Length
    modifies p
    ensures r == Signed32(|Encoding(h)|)
    ensures p[..] == Overlay(old(p[..]), Fields(h), sz)
  {
    var pack := new Cursor(p, sz);
    EncodeHead(h, pack);
    EncodeExtension(h, pack);
    EncodeFactAndData(h, pack);
    assert pack.fields == Fields(h);
    r := Length(pack);
  }

  method DecodeHead(pack: Cursor)
    returns (chunkId: seq<Byte>, chunkSize: nat, format: seq<Byte>, fmtChunkId: seq<Byte>, fmtChunkSize: nat,
             audioFormat: nat, numChannels: nat, sampleRate: nat, byteRate: nat, blockAlign: nat, bitsPerSample: nat)
    requires pack.endp <= pack.buf.Length && pack.p == 0
    modifies pack`p
    ensures pack.p == 36
    ensures var bytes := pack.buf[..pack.endp];
      && chunkId == FieldAt(bytes, 0, 4) && chunkSize == U32At(bytes, 4) && format == FieldAt(bytes, 8, 4)
      && fmtChunkId == FieldAt(bytes, 12, 4) && fmtChunkSize == U32At(bytes, 16) && audioFormat == U16At(bytes, 20)
      && numChannels == U16At(bytes, 22) && sampleRate == U32At(bytes, 24) && byteRate == U32At(bytes, 28)
      && blockAlign == U16At(bytes, 32) && bitsPerSample == U16At(bytes, 34)
  {
    chunkId := pack.UnpackBytes(4);
    chunkSize := pack.UnpackU32le();
    format := pack.UnpackBytes(4);

    fmtChunkId := pack.UnpackBytes(4);
    fmtChunkSize := pack.UnpackU32le();
    audioFormat := pack.UnpackU16le();
    numChannels := pack.UnpackU16le();
    sampleRate := pack.UnpackU32le();
    byteRate := pack.UnpackU32le();
    blockAlign := pack.UnpackU16le();
    bitsPerSample := pack.UnpackU16le();
  }

  method DecodeExtension(pack: Cursor, fmtChunkSize: nat)
    returns (cbSize: nat, validBitsPerSample: nat, channelMask: nat, subFormat: seq<Byte>)
    requires pack.endp <= pack.buf.Length && pack.p == 36 && fmtChunkSize == U32At(pack.buf[..pack.endp], 16)
    modifies pack`p
    ensures pack.p == FactAt(pack.buf[..pack.endp]) && cbSize == CbSize(pack.buf[..pack.endp])
    ensures var bytes := pack.buf[..pack.endp];
      if Extended(bytes)
      then && validBitsPerSample == U16At(bytes, 38) && channelMask == U32At(bytes, 40)
           && subFormat == FieldAt(bytes, 44, 16)
      else validBitsPerSample == 0 && channelMask == 0 && subFormat == Zeros(16)
  {
    cbSize, validBitsPerSample, channelMask, subFormat := 0, 0, 0, Zeros(16);
    if fmtChunkSize >= 18 {
      cbSize := pack.UnpackU16le();
      if 22 == cbSize {
        validBitsPerSample := pack.UnpackU16le();
        channelMask := pack.UnpackU32le();
        subFormat := pack.UnpackBytes(16);
      } else {
        pack.Skip(fmtChunkSize - 18);
      }
    }
  }

  method DecodeFactAndData(pack: Cursor)
    returns (factChunkId: seq<Byte>, factChunkSize: nat, sampleLength: nat, dataChunkId: seq<Byte>, dataChunkSize: nat)
    requires pack.endp <= pack.buf.Length && pack.p == FactAt(pack.buf[..pack.endp])
    modifies pack`p
    ensures pack.p == Consumed(pack.buf[..pack.endp])
    ensures var bytes := pack.buf[..pack.endp]; var d, e := FactAt(bytes), DataAt(bytes);
      && dataChunkId == FieldAt(bytes, e, 4) && dataChunkSize == U32At(bytes, e + 4)
      && if HasFact(bytes)
         then factChunkId == FACT && factChunkSize == U32At(bytes, d + 4) && sampleLength == U32At(bytes, d + 8)
         else factChunkId == Zeros(4) && factChunkSize == 0 && sampleLength == 0
  {
    factChunkId, factChunkSize, sampleLength := Zeros(4), 0, 0;
    dataChunkId := pack.UnpackBytes(4);
    if FACT == dataChunkId {
      factChunkId := dataChunkId;
      factChunkSize := pack.UnpackU32le();
      sampleLength := pack.UnpackU32le();
      dataChunkId := pack.UnpackBytes(4);
    }
    dataChunkSize := pack.UnpackU32le();
  }

  method DecodeFields(pack: Cursor) returns (wh: Header)
    requires pack.endp <= pack.buf.Length && pack.p == 0
    modifies pack`p
    ensures wh == Decoded(pack.buf[..pack.endp]) && pack.p == Consumed(pack.buf[..pack.endp])
  {
    var chunkId, chunkSize, format, fmtChunkId, fmtChunkSize, audioFormat, numChannels, sampleRate, byteRate,
        blockAlign, bitsPerSample := DecodeHead(pack);
    var cbSize, validBitsPerSample, channelMask, subFormat := DecodeExtension(pack, fmtChunkSize);
    var factChunkId, factChunkSize, sampleLength, dataChunkId, dataChunkSize := DecodeFactAndData(pack);
    wh := Header(chunkId, chunkSize, format, fmtChunkId, fmtChunkSize, audioFormat, numChannels, sampleRate, byteRate,
                 blockAlign, bitsPerSample, cbSize, validBitsPerSample, channelMask, subFormat,
                 factChunkId, factChunkSize, sampleLength, dataChunkId, dataChunkSize);
  }

  /** The decoder's checks, in its order. */
  method Validate(wh: Header) returns (ok: bool)
    ensures ok <==> Acceptable(wh)
  {
    if RIFF != wh.chunkId {
      return false;
    }
    if wh.chunkSize < (12 + wh.fmtChunkSize + wh.factChunkSize) % WORD {
      return false;
    }
    if WAVE != wh.format {
      return false;
    }
    ok := true;
  }

  /** The number of bytes consumed, as the decoder computes it. */
  method Length(pack: Cursor) returns (r: int)
    ensures r == Signed32(pack.p)
  {
    var remaining := pack.Remaining();
    SizeMinusRemaining(pack.endp, pack.p);
    r := Signed32(pack.endp - remaining);
  }

  /** rf_wavheader_decode. The header is filled in even if it is not acceptable. */
  method Decode(p: array<Byte>, sz: nat) returns (r: int, wh: Header)
    requires sz <= p.Length
    ensures wh == Decoded(p[..sz]) && r == Verdict(p[..sz])
  {
    var pack := new Cursor(p, sz);
    wh := DecodeFields(pack);
    var ok := Validate(wh);
    if ok {
      r := Length(pack);
    } else {
      r := -EINVAL;
    }
  }
}
