/**
 * Properties of the WAV codec: what the reader ignores, where it finds the
 * samples, what the writer emits, and the two round trips between them.
 */
module WaveProperties {
  import opened Wrappers
  import opened Bytes
  import opened Samples
  import opened WaveSpec

  /** The header `split` writes, field by field. */
  lemma HeaderBytes(h: Header, dataSize: nat)
    requires Fits(h) && dataSize < 0x1_0000_0000
    ensures Pow256(2) == 0x1_0000 && Pow256(4) == 0x1_0000_0000
    ensures var b := EncodeHeader(h, dataSize);
      b[0..4] == RiffTag && b[4..8] == ToLittleEndian(h.fileSize, 4) && b[8..12] == WaveTag &&
      b[12..16] == FmtTag && b[16..20] == ToLittleEndian(h.fmtSize, 4) &&
      b[20..22] == ToLittleEndian(h.audioFormat, 2) && b[22..24] == ToLittleEndian(h.channels, 2) &&
      b[24..28] == ToLittleEndian(h.sampleRate, 4) && b[28..32] == ToLittleEndian(h.byteRate, 4) &&
      b[32..34] == ToLittleEndian(h.blockAlign, 2) && b[34..36] == ToLittleEndian(h.bitsPerSample, 2) &&
      b[36..40] == DataTag && b[40..44] == ToLittleEndian(dataSize, 4)
  {
    Pow256Values();
    var q1 := RiffTag + ToLittleEndian(h.fileSize, 4);
    var q2 := q1 + WaveTag;
    var q3 := q2 + FmtTag;
    var q4 := q3 + ToLittleEndian(h.fmtSize, 4);
    var q5 := q4 + ToLittleEndian(h.audioFormat, 2);
    var q6 := q5 + ToLittleEndian(h.channels, 2);
    var q7 := q6 + ToLittleEndian(h.sampleRate, 4);
    var q8 := q7 + ToLittleEndian(h.byteRate, 4);
    var q9 := q8 + ToLittleEndian(h.blockAlign, 2);
    var q10 := q9 + ToLittleEndian(h.bitsPerSample, 2);
    var q11 := q10 + DataTag;
    var b := q11 + ToLittleEndian(dataSize, 4);
    Piece(b, q11, ToLittleEndian(dataSize, 4), b);
    Piece(b, q10, DataTag, q11);
    Piece(b, q9, ToLittleEndian(h.bitsPerSample, 2), q10);
    Piece(b, q8, ToLittleEndian(h.blockAlign, 2), q9);
    Piece(b, q7, ToLittleEndian(h.byteRate, 4), q8);
    Piece(b, q6, ToLittleEndian(h.sampleRate, 4), q7);
    Piece(b, q5, ToLittleEndian(h.channels, 2), q6);
    Piece(b, q4, ToLittleEndian(h.audioFormat, 2), q5);
    Piece(b, q3, ToLittleEndian(h.fmtSize, 4), q4);
    Piece(b, q2, FmtTag, q3);
    Piece(b, q1, WaveTag, q2);
    Piece(b, RiffTag, ToLittleEndian(h.fileSize, 4), q1);
    Piece(b, [], RiffTag, RiffTag);
  }

  /** In `b`, which begins with `q + p`, the bytes after `q` begin with `p`. */
  lemma Piece(b: seq<Byte>, q: seq<Byte>, p: seq<Byte>, qp: seq<Byte>)
    requires qp == q + p && |qp| <= |b| && b[..|qp|] == qp
    ensures b[|q|..|qp|] == p && b[..|q|] == q
  {
    assert b[..|q|] == qp[..|q|];
    assert b[|q|..|qp|] == qp[|q|..];
  }

  /** The header `split` writes reads back as the header it was written from. */
  lemma ParseEncodedHeader(h: Header, dataSize: nat, rest: seq<Byte>)
    requires Fits(h) && dataSize < 0x1_0000_0000
    requires h.riffId == RiffTag && h.waveId == WaveTag && h.fmtId == FmtTag
    ensures ParseHeader(EncodeHeader(h, dataSize) + rest) == Ok(h)
  {
    var e := EncodeHeader(h, dataSize);
    var b := e + rest;
    HeaderBytes(h, dataSize);
    assert b[..44] == e;
    forall lo: nat, hi: nat | lo <= hi <= 44
      ensures b[lo..hi] == e[lo..hi]
    {
      assert b[lo..hi] == b[..44][lo..hi];
    }
  }

  /**
   * For a file whose tags are literally "RIFF", "WAVE", "fmt " and "data" at
   * offsets 0, 8, 12 and 36, the header `split` writes is the file's own first
   * 44 bytes.
   */
  lemma EncodeParsedHeader(input: seq<Byte>)
    requires |input| >= OutputHeaderSize
    requires input[0..4] == RiffTag && input[8..12] == WaveTag && input[12..16] == FmtTag && input[36..40] == DataTag
    ensures ParseHeader(input).Ok?
    ensures Field(input, 40, 4) < 0x1_0000_0000
    ensures EncodeHeader(ParseHeader(input).value, Field(input, 40, 4)) == input[..OutputHeaderSize]
  {
    Pow256Values();
    var h := ParseHeader(input).value;
    var e := EncodeHeader(h, Field(input, 40, 4));
    HeaderBytes(h, Field(input, 40, 4));
    forall lo: nat, n: nat | lo + n <= |input|
      ensures ToLittleEndian(Field(input, lo, n), n) == input[lo..lo + n]
    {
      ToLittleEndianOfLittleEndian(input[lo..lo + n]);
    }
    assert e == input[0..4] + input[4..8] + input[8..12] + input[12..16] + input[16..20]
      + input[20..22] + input[22..24] + input[24..28] + input[28..32]
      + input[32..34] + input[34..36] + input[36..40] + input[40..44];
    Rejoin(input, 0, 4, 8); Rejoin(input, 0, 8, 12); Rejoin(input, 0, 12, 16);
    Rejoin(input, 0, 16, 20); Rejoin(input, 0, 20, 22); Rejoin(input, 0, 22, 24);
    Rejoin(input, 0, 24, 28); Rejoin(input, 0, 28, 32); Rejoin(input, 0, 32, 34);
    Rejoin(input, 0, 34, 36); Rejoin(input, 0, 36, 40); Rejoin(input, 0, 40, 44);
  }

  lemma Rejoin(s: seq<Byte>, a: nat, b: nat, c: nat)
    requires a <= b <= c <= |s|
    ensures s[a..b] + s[b..c] == s[a..c]
  {
  }

  /**
   * What the scan returns is a chunk header at a boundary reached from `pos`:
   * the id there is "data", the size is the one declared there, and it is
   * not 0xFFFFFFFF; the payload starts right after the 8 header bytes.
   */
  lemma {:induction false} FindDataSound(input: seq<Byte>, pos: nat)
    requires FindData(input, pos).Ok?
    ensures var c := FindData(input, pos).value;
      input[c.payload - 8..c.payload - 4] == DataTag &&
      c.size == Field(input, c.payload - 4, 4) && c.size != MaxChunkSize
    ensures SkipsTo(input, pos, FindData(input, pos).value.payload - 8)
    decreases |input| - pos
  {
    if input[pos..pos + 4] != DataTag {
      var next := pos + 8 + Field(input, pos + 4, 4);
      FindDataSound(input, next);
      assert FindData(input, pos) == FindData(input, next);
    }
  }

  /** `a` and `b` have the same length and the same bytes from offset `lo` on. */
  predicate AgreeFrom(a: seq<Byte>, b: seq<Byte>, lo: nat)
  {
    |a| == |b| && forall k :: lo <= k < |a| ==> a[k] == b[k]
  }

  /** The chunk scan reads nothing before its starting point. */
  lemma {:induction false} FindDataReadsOnlyFrom(a: seq<Byte>, b: seq<Byte>, pos: nat)
    requires AgreeFrom(a, b, pos)
    ensures FindData(a, pos) == FindData(b, pos)
    decreases |a| - pos
  {
    if pos + 8 <= |a| {
      assert a[pos..pos + 4] == b[pos..pos + 4];
      assert a[pos + 4..pos + 8] == b[pos + 4..pos + 8];
      FindDataReadsOnlyFrom(a, b, pos + 8 + Field(a, pos + 4, 4));
    }
  }

  /** The header fields other than the tags and `fmtSize` come from bytes [4, 8) and [20, 36). */
  lemma ParseHeaderIgnoresTags(a: seq<Byte>, b: seq<Byte>)
    requires AgreeFrom(a, b, 20) && |a| >= HeaderEnd && a[4..8] == b[4..8]
    ensures ParseHeader(b).Ok? && ParseHeader(a).Ok?
    ensures ParseHeader(b).value == ParseHeader(a).value.(riffId := b[0..4], waveId := b[8..12], fmtId := b[12..16], fmtSize := Field(b, 16, 4))
  {
    assert a[20..22] == b[20..22] && a[22..24] == b[22..24] && a[24..28] == b[24..28];
    assert a[28..32] == b[28..32] && a[32..34] == b[32..34] && a[34..36] == b[34..36];
  }

  /**
   * The tags are never checked and `fmtSize` never moves the cursor: two
   * files that differ only in the "RIFF", "WAVE" and "fmt " tags and in the
   * fmt chunk's size decode alike, except for those four header fields.
   */
  lemma TagsAndFmtSizeIgnored(a: seq<Byte>, b: seq<Byte>)
    requires AgreeFrom(a, b, 20) && |a| >= HeaderEnd && a[4..8] == b[4..8]
    ensures Decode(a).Err? ==> Decode(b) == Decode(a)
    ensures Decode(a).Ok? ==> Decode(b).Ok? && Decode(b).value == Decode(a).value.(
      header := Decode(a).value.header.(riffId := b[0..4], waveId := b[8..12], fmtId := b[12..16], fmtSize := Field(b, 16, 4)))
  {
    ParseHeaderIgnoresTags(a, b);
    FindDataReadsOnlyFrom(a, b, HeaderEnd);
    var chunk := FindData(a, HeaderEnd);
    if chunk.Ok? {
      ReadAtReadsOnlyFrom(a, b, chunk.value.payload, chunk.value.size);
    }
  }

  lemma ReadAtReadsOnlyFrom(a: seq<Byte>, b: seq<Byte>, pos: nat, n: nat)
    requires AgreeFrom(a, b, pos)
    ensures ReadAt(a, pos, n) == ReadAt(b, pos, n)
  {
    if pos < |a| {
      var k := Min(n, |a| - pos);
      assert a[pos..pos + k] == b[pos..pos + k];
    }
  }

  /**
   * What a successful decode read: a header, a supported bit depth and a
   * `data` chunk found from offset 36, whose samples `DecodeData` decoded.
   */
  lemma Decoded(input: seq<Byte>)
    requires Decode(input).Ok?
    ensures ParseHeader(input).Ok? && SampleFormatOf(ParseHeader(input).value.bitsPerSample).Ok?
    ensures FindData(input, HeaderEnd).Ok?
    ensures Decode(input) == DecodeData(input, ParseHeader(input).value,
      SampleFormatOf(ParseHeader(input).value.bitsPerSample).value, FindData(input, HeaderEnd).value)
  {
  }

  /** Any bit depth but 8, 16 and 32 is refused once the header is read. */
  lemma BitDepthChecked(input: seq<Byte>)
    requires |input| >= HeaderEnd
    ensures !(ParseHeader(input).value.bitsPerSample in {8, 16, 32}) <==> Decode(input) == Err(UnsupportedBitDepth)
  {
  }

  /**
   * A chunk that is not `data` is skipped by exactly its 8 header bytes and
   * its declared size, odd or even: there is no pad byte.
   */
  lemma ScanSkipsChunk(input: seq<Byte>, pos: nat)
    requires pos + 8 <= |input| && input[pos..pos + 4] != DataTag
    ensures FindData(input, pos) == FindData(input, pos + 8 + Field(input, pos + 4, 4))
  {
  }

  /** A file whose last chunk before the end is not `data` has no data chunk. */
  lemma ScanRunsOffTheEnd(input: seq<Byte>, pos: nat)
    requires pos + 8 <= |input| && input[pos..pos + 4] != DataTag
    requires |input| <= pos + 8 + Field(input, pos + 4, 4)
    ensures FindData(input, pos) == Err(EndOfFile)
  {
  }

  /**
   * Where the scan meets a `data` chunk it stops there: it refuses the size
   * 0xFFFFFFFF and otherwise returns the declared size and the payload
   * offset right after the chunk header.
   */
  lemma ScanMeetsData(input: seq<Byte>, pos: nat)
    requires pos + 8 <= |input| && input[pos..pos + 4] == DataTag
    ensures FindData(input, pos) ==
      if Field(input, pos + 4, 4) == MaxChunkSize then Err(BadDataSize)
      else Ok(DataChunk(Field(input, pos + 4, 4), pos + 8))
  {
  }

  /**
   * The chunk boundary `pos` is reached from `from` by skipping whole chunks
   * that are not `data`, each by 8 bytes plus its declared size.
   */
  ghost predicate SkipsTo(input: seq<Byte>, from: nat, pos: nat)
    decreases pos - from
  {
    from == pos ||
    (from + 8 <= |input| && input[from..from + 4] != DataTag &&
     from + 8 + Field(input, from + 4, 4) <= pos &&
     SkipsTo(input, from + 8 + Field(input, from + 4, 4), pos))
  }

  /** Skipping chunks does not change what the scan finds. */
  lemma {:induction false} ScanSkipsTo(input: seq<Byte>, from: nat, pos: nat)
    requires SkipsTo(input, from, pos)
    ensures FindData(input, from) == FindData(input, pos)
    decreases pos - from
  {
    if from != pos {
      var next := from + 8 + Field(input, from + 4, 4);
      ScanSkipsChunk(input, from);
      ScanSkipsTo(input, next, pos);
    }
  }

  /**
   * A `data` chunk declaring 0xFFFFFFFF bytes fails the whole read wherever
   * the scan meets it: right after the header or after skipped chunks.
   */
  lemma DataSizeMaxRefused(input: seq<Byte>, pos: nat)
    requires |input| >= HeaderEnd
    requires ParseHeader(input).value.bitsPerSample in {8, 16, 32}
    requires SkipsTo(input, HeaderEnd, pos)
    requires pos + 8 <= |input| && input[pos..pos + 4] == DataTag && Field(input, pos + 4, 4) == MaxChunkSize
    ensures Decode(input) == Err(BadDataSize)
  {
    ScanSkipsTo(input, HeaderEnd, pos);
    ScanMeetsData(input, pos);
  }

  /** A file with zero channels fails on the division that counts frames. */
  lemma ZeroChannelsRefused(input: seq<Byte>)
    requires |input| >= HeaderEnd
    requires ParseHeader(input).value.bitsPerSample in {8, 16, 32}
    requires FindData(input, HeaderEnd).Ok? && ParseHeader(input).value.channels == 0
    ensures Decode(input) == Err(DivisionByZero)
  {
  }

  /**
   * Sample `c` of frame `i` is read from the `Width` bytes at payload offset
   * `SampleOffset`, which is (i * channels + c) * width (`OffsetIsProduct`).
   */
  lemma DecodedSampleAt(input: seq<Byte>, h: Header, f: SampleFormat, chunk: DataChunk, i: nat, c: nat)
    requires Fits(h) && SampleFormatOf(h.bitsPerSample) == Ok(f) && chunk.size < MaxChunkSize
    requires DecodeData(input, h, f, chunk).Ok?
    requires i < DecodeData(input, h, f, chunk).value.numSamples && c < h.channels
    ensures var o := chunk.payload + SampleOffset(f, h.channels, i, c);
      o + Width(f) <= |input| &&
      DecodeData(input, h, f, chunk).value.amplitudes[i][c] == DecodeSample(f, input[o..o + Width(f)])
  {
    var raw := ReadAt(input, chunk.payload, chunk.size);
    var n := NumFrames(f, chunk.size, h.channels);
    DecodeMatrixAt(f, raw, n, h.channels, i, c);
    var o := SampleOffset(f, h.channels, i, c);
    ReadAtSlice(input, chunk.payload, chunk.size, o, o + Width(f));
  }

  /**
   * Only whole frames are decoded: `numSamples` frames fit in the declared
   * data size and one more does not, and the bytes of a trailing partial
   * frame play no part in the amplitudes.
   */
  lemma PartialFrameDropped(input: seq<Byte>, h: Header, f: SampleFormat, chunk: DataChunk)
    requires Fits(h) && SampleFormatOf(h.bitsPerSample) == Ok(f) && chunk.size < MaxChunkSize
    requires chunk.payload <= |input|
    requires DecodeData(input, h, f, chunk).Ok?
    ensures var n, p := DecodeData(input, h, f, chunk).value.numSamples, chunk.payload;
      var whole := FrameBytes(f, n, h.channels);
      whole <= chunk.size < FrameBytes(f, n + 1, h.channels) &&
      p + whole <= |input| &&
      DecodeData(input, h, f, chunk).value.amplitudes == DecodeMatrix(f, input[p..p + whole], n, h.channels)
  {
    var p, n := chunk.payload, NumFrames(f, chunk.size, h.channels);
    var raw := ReadAt(input, p, chunk.size);
    var whole := FrameBytes(f, n, h.channels);
    WholeFrames(f, chunk.size, h.channels);
    assert raw == raw[..whole] + raw[whole..];
    DecodeMatrixIgnoresRest(f, raw[..whole], raw[whole..], n, h.channels);
    if whole > 0 {
      ReadAtSlice(input, p, chunk.size, 0, whole);
    }
  }

  /** A decode is the header, the bit depth and the scan, then `DecodeData` on what they found. */
  lemma DecodeIs(input: seq<Byte>, h: Header, f: SampleFormat, chunk: DataChunk)
    requires ParseHeader(input) == Ok(h) && SampleFormatOf(h.bitsPerSample) == Ok(f)
    requires FindData(input, HeaderEnd) == Ok(chunk)
    ensures Fits(h) && chunk.size < MaxChunkSize
    ensures Decode(input) == DecodeData(input, h, f, chunk)
  {
  }

  /** A header too short to read is the decode's failure. */
  lemma HeaderFailure(input: seq<Byte>)
    requires ParseHeader(input).Err?
    ensures Decode(input) == Err(ParseHeader(input).error)
  {
  }

  /** A scan that fails after a good header and bit depth is the decode's failure. */
  lemma ScanFailure(input: seq<Byte>, h: Header, f: SampleFormat)
    requires ParseHeader(input) == Ok(h) && SampleFormatOf(h.bitsPerSample) == Ok(f)
    requires FindData(input, HeaderEnd).Err?
    ensures Decode(input) == Err(FindData(input, HeaderEnd).error)
  {
  }

  /**
   * What `split` writes for a source is the 44-byte header, whose `data`
   * size is the one read, followed by the whole frames of the amplitudes.
   */
  lemma EncodeLayout(w: Wave, m: seq<seq<int>>)
    requires WellFormed(w) && IsMatrix(m, w.header.channels) && AllInRange(w.format, m)
    ensures var out := EncodeWave(w, m);
      |out| == OutputHeaderSize + FrameBytes(w.format, |m|, w.header.channels) &&
      out[..OutputHeaderSize] == EncodeHeader(w.header, w.dataSize) &&
      out[36..40] == DataTag && Field(out, 40, 4) == w.dataSize &&
      out[OutputHeaderSize..] == EncodeMatrix(w.format, m)
  {
    var out := EncodeWave(w, m);
    var e := EncodeHeader(w.header, w.dataSize);
    EncodeMatrixLength(w.format, m, w.header.channels);
    HeaderBytes(w.header, w.dataSize);
    assert out[40..44] == e[40..44];
  }

  /**
   * The `data` size `split` declares matches the sample bytes it writes
   * exactly when the size read is a whole number of frames; otherwise the
   * declared size also counts the dropped partial frame.
   */
  lemma DeclaredSizeExact(w: Wave)
    requires WellFormed(w)
    ensures |EncodeWave(w, w.amplitudes)| == OutputHeaderSize + w.dataSize
      <==> w.dataSize % (Width(w.format) * w.header.channels) == 0
  {
    EncodeMatrixLength(w.format, w.amplitudes, w.header.channels);
    ExactFrames(w.format, w.dataSize, w.header.channels);
  }

  /** The scan of a file `split` wrote stops at once, at the `data` header it wrote at offset 36. */
  lemma FindEncodedData(w: Wave, m: seq<seq<int>>)
    requires WellFormed(w) && IsMatrix(m, w.header.channels) && AllInRange(w.format, m)
    ensures FindData(EncodeWave(w, m), HeaderEnd) == Ok(DataChunk(w.dataSize, OutputHeaderSize))
  {
    EncodeLayout(w, m);
  }

  /** The samples of a file `split` wrote decode back to the amplitudes written. */
  lemma DecodeEncodedData(w: Wave)
    requires WellFormed(w)
    ensures DecodeData(EncodeWave(w, w.amplitudes), w.header, w.format, DataChunk(w.dataSize, OutputHeaderSize)) == Ok(w)
  {
    var out := EncodeWave(w, w.amplitudes);
    var f, ch, n := w.format, w.header.channels, w.numSamples;
    EncodeLayout(w, w.amplitudes);
    var raw := ReadAt(out, OutputHeaderSize, w.dataSize);
    assert raw == out[OutputHeaderSize..];
    DecodeEncodedMatrix(f, w.amplitudes, ch);
  }

  /**
   * Reading back what `split` writes gives the wave it was written from,
   * provided the tags read were the literal "RIFF", "WAVE" and "fmt ": the
   * writer emits those literals whatever tags were read, so a wave with
   * other tags comes back with the literals in their place.  This holds
   * whether or not the `data` size was a whole number of frames.
   */
  lemma DecodeEncodedWave(w: Wave)
    requires WellFormed(w)
    requires w.header.riffId == RiffTag && w.header.waveId == WaveTag && w.header.fmtId == FmtTag
    ensures Decode(EncodeWave(w, w.amplitudes)) == Ok(w)
  {
    var out := EncodeWave(w, w.amplitudes);
    var chunk := DataChunk(w.dataSize, OutputHeaderSize);
    ParseEncodedHeader(w.header, w.dataSize, EncodeMatrix(w.format, w.amplitudes));
    FindEncodedData(w, w.amplitudes);
    DecodeIs(out, w.header, w.format, chunk);
    DecodeEncodedData(w);
  }

  /** When the `data` size is a whole number of frames, re-encoding the samples gives back the payload. */
  lemma EncodeDecodedData(input: seq<Byte>, h: Header, f: SampleFormat, chunk: DataChunk)
    requires Fits(h) && SampleFormatOf(h.bitsPerSample) == Ok(f) && chunk.size < MaxChunkSize
    requires chunk.payload <= |input| && DecodeData(input, h, f, chunk).Ok?
    requires chunk.size % (Width(f) * h.channels) == 0
    ensures chunk.payload + chunk.size <= |input|
    ensures EncodeMatrix(f, DecodeData(input, h, f, chunk).value.amplitudes)
      == input[chunk.payload..chunk.payload + chunk.size]
  {
    var n := NumFrames(f, chunk.size, h.channels);
    var raw := ReadAt(input, chunk.payload, chunk.size);
    ExactFrames(f, chunk.size, h.channels);
    EncodeDecodedMatrix(f, raw, n, h.channels);
    assert raw[..chunk.size] == raw;
  }

  /**
   * Writing back what was read: for a file with the literal tags at offsets
   * 0, 8, 12 and 36 (so the `data` chunk follows the 16-byte fmt fields
   * directly) whose `data` size is a whole number of frames, every file
   * `split` writes is the input's first 44 bytes and its samples, byte for
   * byte; anything after the `data` chunk is not copied.
   */
  lemma RoundTrip(input: seq<Byte>, sources: seq<string>)
    requires Decode(input).Ok?
    requires |input| >= OutputHeaderSize
    requires input[0..4] == RiffTag && input[8..12] == WaveTag && input[12..16] == FmtTag && input[36..40] == DataTag
    requires Decode(input).value.dataSize % (Width(Decode(input).value.format) * Decode(input).value.header.channels) == 0
    ensures var w := Decode(input).value;
      OutputHeaderSize + w.dataSize <= |input| &&
      EncodeWave(w, w.amplitudes) == input[..OutputHeaderSize + w.dataSize] &&
      forall k :: 0 <= k < |sources| ==> Split(w, sources)[k].1 == input[..OutputHeaderSize + w.dataSize]
  {
    Decoded(input);
    var w := Decode(input).value;
    var h, f, chunk := w.header, w.format, FindData(input, HeaderEnd).value;
    assert chunk == DataChunk(Field(input, 40, 4), OutputHeaderSize);
    EncodeParsedHeader(input);
    EncodeDecodedData(input, h, f, chunk);
    assert input[..OutputHeaderSize + w.dataSize] == input[..OutputHeaderSize] + input[OutputHeaderSize..OutputHeaderSize + w.dataSize];
  }
}
