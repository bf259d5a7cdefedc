/**
 * What `Waveform` reads from and writes to a .wav file, as pure functions of
 * the file's bytes: the fixed-offset RIFF/WAVE header, the chunk scan for the
 * `data` chunk, the sample matrix, and the 44-byte header plus samples that
 * `split` writes for every source.
 */
module WaveSpec {
  import opened Wrappers
  import opened Bytes
  import opened Samples

  /** The exceptions `Waveform.__init__` can raise while reading. */
  datatype WaveError =
    | ShortRead            // struct.error: `struct.unpack` given fewer bytes than its format needs
    | UnsupportedBitDepth  // ValueError: bits per sample not 8, 16 or 32
    | EndOfFile            // ValueError: no bytes left where a chunk id should start
    | BadDataSize          // ValueError: the `data` chunk declares size 0xFFFFFFFF
    | DivisionByZero       // ZeroDivisionError: zero audio channels

  const RiffTag: seq<Byte> := [0x52, 0x49, 0x46, 0x46]  // "RIFF"
  const WaveTag: seq<Byte> := [0x57, 0x41, 0x56, 0x45]  // "WAVE"
  const FmtTag: seq<Byte> := [0x66, 0x6d, 0x74, 0x20]   // "fmt "
  const DataTag: seq<Byte> := [0x64, 0x61, 0x74, 0x61]  // "data"

  /** The offset just past the fmt fields, where the chunk scan starts. */
  const HeaderEnd: nat := 36
  /** The size of the header `split` writes. */
  const OutputHeaderSize: nat := 44
  /** A `data` size that is refused. */
  const MaxChunkSize: nat := 0xFFFF_FFFF

  /** The fields read at fixed offsets before the chunk scan. */
  datatype Header = Header(
    riffId: seq<Byte>, fileSize: nat, waveId: seq<Byte>,
    fmtId: seq<Byte>, fmtSize: nat, audioFormat: nat, channels: nat,
    sampleRate: nat, byteRate: nat, blockAlign: nat, bitsPerSample: nat)

  /** Every field fits the width it was read from. */
  predicate Fits(h: Header)
  {
    |h.riffId| == 4 && |h.waveId| == 4 && |h.fmtId| == 4 &&
    h.fileSize < 0x1_0000_0000 && h.fmtSize < 0x1_0000_0000 &&
    h.audioFormat < 0x1_0000 && h.channels < 0x1_0000 &&
    h.sampleRate < 0x1_0000_0000 && h.byteRate < 0x1_0000_0000 &&
    h.blockAlign < 0x1_0000 && h.bitsPerSample < 0x1_0000
  }

  /** The unsigned little-endian field of `n` bytes at offset `lo`. */
  function Field(input: seq<Byte>, lo: nat, n: nat): (v: nat)
    requires lo + n <= |input|
    ensures v < Pow256(n)
  {
    LittleEndian(input[lo..lo + n])
  }

  /**
   * The header, read field after field from offset 0.  The tags are kept as
   * read and never compared with "RIFF", "WAVE" or "fmt "; `fmtSize` is kept
   * but does not move the cursor.
   */
  function ParseHeader(input: seq<Byte>): (r: Result<Header, WaveError>)
    ensures r.Ok? <==> |input| >= HeaderEnd
    ensures r.Ok? ==> Fits(r.value)
  {
    Pow256Values();
    if |input| < HeaderEnd then Err(ShortRead)
    else Ok(Header(
      input[0..4], Field(input, 4, 4), input[8..12],
      input[12..16], Field(input, 16, 4), Field(input, 20, 2), Field(input, 22, 2),
      Field(input, 24, 4), Field(input, 28, 4), Field(input, 32, 2), Field(input, 34, 2)))
  }

  /** The sample encoding for a bit depth; any depth but 8, 16 and 32 is refused. */
  function SampleFormatOf(bits: nat): (r: Result<SampleFormat, WaveError>)
    ensures r.Ok? <==> bits in {8, 16, 32}
    ensures r.Ok? ==> Width(r.value) == bits / 8
  {
    if bits == 8 then Ok(UnsignedByte)
    else if bits == 16 then Ok(SignedLE16)
    else if bits == 32 then Ok(SignedLE32)
    else Err(UnsupportedBitDepth)
  }

  /** Where the `data` chunk was found: its declared size and where its payload starts. */
  datatype DataChunk = DataChunk(size: nat, payload: nat)

  /**
   * The chunk scan from a chunk boundary `pos`: read a 4-byte id and a
   * 4-byte size; stop at `data`, otherwise skip the chunk's 8 + size bytes.
   * The cursor may be moved past the end of the file by a skip; the next
   * read then finds nothing.
   */
  function FindData(input: seq<Byte>, pos: nat): (r: Result<DataChunk, WaveError>)
    ensures r.Ok? ==> pos + 8 <= r.value.payload <= |input| && r.value.size < MaxChunkSize
    ensures r.Err? ==> r.error in {EndOfFile, ShortRead, BadDataSize}
    decreases |input| - pos
  {
    if pos >= |input| then Err(EndOfFile)
    else if pos + 8 > |input| then Err(ShortRead)
    else
      var size := Field(input, pos + 4, 4);
      Pow256Values();
      if input[pos..pos + 4] == DataTag then
        if size == MaxChunkSize then Err(BadDataSize) else Ok(DataChunk(size, pos + 8))
      else FindData(input, pos + 8 + size)
  }

  /** A decoded file: its header, its sample encoding and its amplitude matrix. */
  datatype Wave = Wave(header: Header, format: SampleFormat, dataSize: nat, numSamples: nat, amplitudes: seq<seq<int>>)

  /** What a successful decode guarantees about a `Wave`. */
  predicate WellFormed(w: Wave)
  {
    Fits(w.header) && w.header.channels > 0 &&
    SampleFormatOf(w.header.bitsPerSample) == Ok(w.format) &&
    w.dataSize < MaxChunkSize &&
    w.numSamples == NumFrames(w.format, w.dataSize, w.header.channels) &&
    |w.amplitudes| == w.numSamples &&
    IsMatrix(w.amplitudes, w.header.channels) && AllInRange(w.format, w.amplitudes) &&
    FrameBytes(w.format, w.numSamples, w.header.channels) <= w.dataSize
  }

  /**
   * The part of `Waveform(input)` after the header and the chunk scan:
   * `num_samples = data_size // (bytes_per_sample * channels)`, then
   * `file.read(data_size)` at the payload, decoded frame by frame.
   */
  function DecodeData(input: seq<Byte>, h: Header, f: SampleFormat, chunk: DataChunk): (r: Result<Wave, WaveError>)
    requires Fits(h) && SampleFormatOf(h.bitsPerSample) == Ok(f) && chunk.size < MaxChunkSize
    ensures r.Ok? ==> WellFormed(r.value) && r.value.header == h && r.value.format == f && r.value.dataSize == chunk.size
    ensures r.Err? <==> h.channels == 0 || FrameBytes(f, NumFrames(f, chunk.size, h.channels), h.channels) > |ReadAt(input, chunk.payload, chunk.size)|
  {
    if h.channels == 0 then Err(DivisionByZero)
    else
      var n := NumFrames(f, chunk.size, h.channels);
      var raw := ReadAt(input, chunk.payload, chunk.size);
      WholeFrames(f, chunk.size, h.channels);
      if FrameBytes(f, n, h.channels) > |raw| then Err(ShortRead)
      else Ok(Wave(h, f, chunk.size, n, DecodeMatrix(f, raw, n, h.channels)))
  }

  /**
   * `Waveform(input)`: the header, the bit-depth check, the chunk scan from
   * offset 36, then the samples of the `data` chunk found.
   */
  function Decode(input: seq<Byte>): (r: Result<Wave, WaveError>)
    ensures r.Ok? ==> WellFormed(r.value)
    ensures r.Ok? ==> ParseHeader(input) == Ok(r.value.header)
    ensures r.Ok? ==> FindData(input, HeaderEnd).Ok? && FindData(input, HeaderEnd).value.size == r.value.dataSize
  {
    var h :- ParseHeader(input);
    var f :- SampleFormatOf(h.bitsPerSample);
    var chunk :- FindData(input, HeaderEnd);
    DecodeData(input, h, f, chunk)
  }

  /** The 44 bytes `split` writes before the samples. */
  function EncodeHeader(h: Header, dataSize: nat): (b: seq<Byte>)
    requires Fits(h) && dataSize < 0x1_0000_0000
    ensures |b| == OutputHeaderSize
    ensures b[0..4] == RiffTag && b[8..12] == WaveTag && b[12..16] == FmtTag && b[36..40] == DataTag
  {
    Pow256Values();
    RiffTag + ToLittleEndian(h.fileSize, 4) + WaveTag
    + FmtTag + ToLittleEndian(h.fmtSize, 4)
    + ToLittleEndian(h.audioFormat, 2) + ToLittleEndian(h.channels, 2)
    + ToLittleEndian(h.sampleRate, 4) + ToLittleEndian(h.byteRate, 4)
    + ToLittleEndian(h.blockAlign, 2) + ToLittleEndian(h.bitsPerSample, 2)
    + DataTag + ToLittleEndian(dataSize, 4)
  }

  /** `isolate(source)`: the amplitudes, unchanged, whatever the source. */
  function Isolate(w: Wave, source: string): (m: seq<seq<int>>)
    ensures m == w.amplitudes
  {
    w.amplitudes
  }

  /** The file `split` writes for one source. */
  function EncodeWave(w: Wave, amplitudes: seq<seq<int>>): seq<Byte>
    requires WellFormed(w) && AllInRange(w.format, amplitudes)
  {
    EncodeHeader(w.header, w.dataSize) + EncodeMatrix(w.format, amplitudes)
  }

  /** `split(output_directory, sources)`: one file per source, in order, keyed by the source's name. */
  function Split(w: Wave, sources: seq<string>): (files: seq<(string, seq<Byte>)>)
    requires WellFormed(w)
    ensures |files| == |sources|
    ensures forall k :: 0 <= k < |sources| ==> files[k].0 == sources[k]
  {
    seq(|sources|, k requires 0 <= k < |sources| => (sources[k], EncodeWave(w, Isolate(w, sources[k]))))
  }
}
