/**
 * The `Waveform` object as the program runs it: a binary file read field by
 * field through a cursor, the chunk scan loop, the amplitude matrix filled
 * sample by sample, and `split` writing one file per source.  Each method
 * is proved to agree with the functions of `WaveSpec`.
 */
module Waveform {
  import opened Wrappers
  import opened Bytes
  import opened Samples
  import opened WaveSpec
  import WaveProperties

  /** A file opened with 'rb': its bytes and the cursor. */
  class BinaryFile {
    const contents: seq<Byte>
    var pos: nat

    constructor (contents: seq<Byte>)
      ensures this.contents == contents && pos == 0
    {
      this.contents := contents;
      pos := 0;
    }

    /** `file.read(n)`: up to `n` bytes from the cursor, which moves past them. */
    method Read(n: nat) returns (b: seq<Byte>)
      modifies this
      ensures b == ReadAt(contents, old(pos), n)
      ensures pos == old(pos) + |b|
    {
      if pos >= |contents| {
        b := [];
      } else {
        var end := Min(pos + n, |contents|);
        b := contents[pos..end];
        pos := end;
      }
    }

    /**
     * `struct.unpack('<H' | '<I', file.read(n))[0]`: the read happens (and
     * moves the cursor) even when it comes back short, and then the unpack
     * fails.
     */
    method ReadUnsigned(n: nat) returns (r: Result<nat, WaveError>)
      requires n == 2 || n == 4
      modifies this
      ensures pos == old(pos) + |ReadAt(contents, old(pos), n)|
      ensures r.Ok? <==> old(pos) + n <= |contents|
      ensures r.Ok? ==> r.value == Field(contents, old(pos), n)
      ensures r.Err? ==> r.error == ShortRead
    {
      var b := Read(n);
      if |b| != n {
        return Err(ShortRead);
      }
      return Ok(LittleEndian(b));
    }

    /** `file.seek(offset, SEEK_CUR)`: the cursor may go past the end. */
    method Skip(offset: nat)
      modifies this
      ensures pos == old(pos) + offset
    {
      pos := pos + offset;
    }
  }

  /** The rows of a two-dimensional array. */
  ghost function MatrixOf(a: array2<int>): (m: seq<seq<int>>)
    reads a
    ensures |m| == a.Length0 && IsMatrix(m, a.Length1)
    ensures forall i, c :: 0 <= i < a.Length0 && 0 <= c < a.Length1 ==> m[i][c] == a[i, c]
  {
    seq(a.Length0, i requires 0 <= i < a.Length0 reads a =>
      seq(a.Length1, c requires 0 <= c < a.Length1 reads a => a[i, c]))
  }

  /** Sample `c` of frame `i` of `raw`, or 0 where `raw` is too short to hold it. */
  ghost function SampleAt(f: SampleFormat, raw: seq<Byte>, channels: nat, i: nat, c: nat): int
  {
    var o := SampleOffset(f, channels, i, c);
    if o + Width(f) <= |raw| then DecodeSample(f, raw[o..o + Width(f)]) else 0
  }

  /** An array holding sample (i, c) of `raw` at every index is the decoded matrix. */
  lemma Filled(a: array2<int>, f: SampleFormat, raw: seq<Byte>, n: nat, channels: nat)
    requires a.Length0 == n && a.Length1 == channels && FrameBytes(f, n, channels) <= |raw|
    requires forall i, c :: 0 <= i < n && 0 <= c < channels ==> a[i, c] == SampleAt(f, raw, channels, i, c)
    ensures MatrixOf(a) == DecodeMatrix(f, raw, n, channels)
  {
    var m, d := MatrixOf(a), DecodeMatrix(f, raw, n, channels);
    forall i, c | 0 <= i < n && 0 <= c < channels
      ensures m[i][c] == d[i][c]
    {
      DecodeMatrixAt(f, raw, n, channels, i, c);
    }
    SameMatrix(m, d, channels);
  }

  /** `for frame in isolated: for sample in frame: file.write(struct.pack(fmt, int(sample)))`. */
  method EncodeSamples(f: SampleFormat, isolated: array2<int>) returns (out: seq<Byte>)
    requires AllInRange(f, MatrixOf(isolated))
    ensures out == EncodeMatrix(f, MatrixOf(isolated))
  {
    ghost var m := MatrixOf(isolated);
    out := [];
    var i := 0;
    while i < isolated.Length0
      invariant 0 <= i <= isolated.Length0
      invariant out == EncodeMatrix(f, m[..i])
    {
      var frame := EncodeRow(f, isolated, i);
      EncodeMatrixSnoc(f, m, i);
      out := out + frame;
      i := i + 1;
    }
    assert m[..i] == m;
  }

  /** The inner loop: the samples of frame `i`, packed one after the other. */
  method EncodeRow(f: SampleFormat, isolated: array2<int>, i: nat) returns (out: seq<Byte>)
    requires i < isolated.Length0 && FrameInRange(f, MatrixOf(isolated)[i])
    ensures out == EncodeFrame(f, MatrixOf(isolated)[i])
  {
    ghost var row := MatrixOf(isolated)[i];
    out := [];
    var c := 0;
    while c < isolated.Length1
      invariant 0 <= c <= isolated.Length1
      invariant out == EncodeFrame(f, row[..c])
    {
      EncodeFrameSnoc(f, row, c);
      out := out + EncodeSample(f, isolated[i, c]);
      c := c + 1;
    }
    assert row[..c] == row;
  }

  class Waveform {
    var riffId: seq<Byte>
    var fileSize: nat
    var waveId: seq<Byte>
    var fmtId: seq<Byte>
    var fmtSize: nat
    var audioFormat: nat
    var audioChannels: nat
    var sampleRate: nat
    var byteRate: nat
    var blockAlign: nat
    var bitsPerSample: nat
    var bytesPerSample: nat
    var sampleFormat: SampleFormat
    var dataId: seq<Byte>
    var dataSize: nat
    var bitRate: nat
    var numSamples: nat
    var amplitudes: array2<int>

    /** An object before `Load` has read a file into it. */
    constructor ()
      ensures numSamples == 0 && audioChannels == 0 && fresh(amplitudes)
    {
      riffId, fileSize, waveId, fmtId := [], 0, [], [];
      fmtSize, audioFormat, audioChannels, sampleRate := 0, 0, 0, 0;
      byteRate, blockAlign, bitsPerSample, bytesPerSample := 0, 0, 0, 0;
      sampleFormat, dataId, dataSize, bitRate, numSamples := UnsignedByte, [], 0, 0, 0;
      amplitudes := new int[0, 0];
    }

    /** The header fields as read. */
    ghost function HeaderRead(): Header
      reads this
    {
      Header(riffId, fileSize, waveId, fmtId, fmtSize, audioFormat, audioChannels,
        sampleRate, byteRate, blockAlign, bitsPerSample)
    }

    /** The object as a value. */
    ghost function Model(): Wave
      reads this, amplitudes
    {
      Wave(HeaderRead(), sampleFormat, dataSize, numSamples, MatrixOf(amplitudes))
    }

    /** What a successful read leaves in the object. */
    ghost predicate Valid()
      reads this, amplitudes
    {
      amplitudes.Length0 == numSamples && amplitudes.Length1 == audioChannels &&
      WellFormed(Model()) && bytesPerSample == Width(sampleFormat) &&
      dataId == DataTag && bitRate == bitsPerSample * sampleRate
    }

    /**
     * `Waveform(input_directory)` on a file whose bytes are
     * `file.contents`: fails exactly when `Decode` does, with the same
     * error, and otherwise holds what `Decode` returns.
     */
    method Load(file: BinaryFile) returns (r: Result<(), WaveError>)
      requires file.pos == 0
      modifies this, file
      ensures r.Ok? <==> Decode(file.contents).Ok?
      ensures r.Err? ==> r.error == Decode(file.contents).error
      ensures r.Ok? ==> Valid() && fresh(amplitudes) && Model() == Decode(file.contents).value
    {
      ghost var input := file.contents;
      var header := ReadHeader(file);
      if header.Err? {
        WaveProperties.HeaderFailure(input);
        return Err(header.error);
      }
      var h := header.value;
      riffId, fileSize, waveId, fmtId, fmtSize := h.riffId, h.fileSize, h.waveId, h.fmtId, h.fmtSize;
      audioFormat, audioChannels, sampleRate, byteRate := h.audioFormat, h.channels, h.sampleRate, h.byteRate;
      blockAlign, bitsPerSample := h.blockAlign, h.bitsPerSample;
      assert HeaderRead() == h;
      bytesPerSample := bitsPerSample / 8;
      if bitsPerSample !in {8, 16, 32} {
        WaveProperties.BitDepthChecked(input);
        return Err(UnsupportedBitDepth);
      }
      if bitsPerSample == 8 {
        sampleFormat := UnsignedByte;
      }
      if bitsPerSample == 16 {
        sampleFormat := SignedLE16;
      } else if bitsPerSample == 32 {
        sampleFormat := SignedLE32;
      }
      assert SampleFormatOf(bitsPerSample) == Ok(sampleFormat);
      r := LoadData(file);
    }

    /**
     * The rest of `Waveform(input_directory)` once the header and the sample
     * format are known: the chunk scan from byte 36, then the samples.
     */
    method LoadData(file: BinaryFile) returns (r: Result<(), WaveError>)
      requires file.pos == HeaderEnd && ParseHeader(file.contents) == Ok(HeaderRead())
      requires SampleFormatOf(bitsPerSample) == Ok(sampleFormat) && bytesPerSample == Width(sampleFormat)
      modifies this`dataId, this`dataSize, this`bitRate, this`numSamples, this`amplitudes, file
      ensures r.Ok? <==> Decode(file.contents).Ok?
      ensures r.Err? ==> r.error == Decode(file.contents).error
      ensures r.Ok? ==> Valid() && fresh(amplitudes) && Model() == Decode(file.contents).value
    {
      ghost var input, h, f := file.contents, HeaderRead(), sampleFormat;
      ghost var scan := FindData(input, HeaderEnd);
      var size := FindDataBlockSize(file);
      if size.Err? {
        WaveProperties.ScanFailure(input, h, f);
        return Err(size.error);
      }
      dataSize := size.value;
      WaveProperties.DecodeIs(input, h, f, scan.value);
      r := LoadSamples(file, scan.value);
    }

    /**
     * The lines after `find_data_block_size`: the bit rate, the frame count
     * `data_size // (bytes_per_sample * audio_channels)`, the array
     * allocation, one read of `data_size` bytes from the payload and the
     * fill loop.  Agrees with `DecodeData` on the chunk found.
     */
    method LoadSamples(file: BinaryFile, ghost chunk: DataChunk) returns (r: Result<(), WaveError>)
      requires Fits(HeaderRead()) && SampleFormatOf(bitsPerSample) == Ok(sampleFormat)
      requires bytesPerSample == Width(sampleFormat) && dataId == DataTag
      requires chunk.size < MaxChunkSize && dataSize == chunk.size && file.pos == chunk.payload
      modifies this`bitRate, this`numSamples, this`amplitudes, file
      ensures r.Ok? <==> DecodeData(file.contents, HeaderRead(), sampleFormat, chunk).Ok?
      ensures r.Err? ==> r.error == DecodeData(file.contents, HeaderRead(), sampleFormat, chunk).error
      ensures r.Ok? ==>
        Valid() && fresh(amplitudes) && Model() == DecodeData(file.contents, HeaderRead(), sampleFormat, chunk).value
    {
      bitRate := bitsPerSample * sampleRate;
      if audioChannels == 0 {
        return Err(DivisionByZero);
      }
      var frameWidth := bytesPerSample * audioChannels;
      numSamples := dataSize / frameWidth;
      assert numSamples == NumFrames(sampleFormat, dataSize, audioChannels);
      amplitudes := new int[numSamples, audioChannels];
      var raw := file.Read(dataSize);
      var ok := Fill(raw);
      if !ok {
        return Err(ShortRead);
      }
      return Ok(());
    }

    /**
     * The fixed-offset fields, read in order from the start of the file:
     * the reads succeed exactly when the file holds the 36 header bytes, and
     * then the fields are those `ParseHeader` gives and the cursor is at 36.
     */
    static method ReadHeader(file: BinaryFile) returns (r: Result<Header, WaveError>)
      requires file.pos == 0
      modifies file
      ensures r == ParseHeader(file.contents)
      ensures r.Ok? ==> file.pos == HeaderEnd
    {
      var riff :- ReadRiffFields(file);
      var fmt :- ReadFormatFields(file);
      return Ok(Header(riff.0, riff.1, riff.2, riff.3, riff.4, fmt.0, fmt.1, fmt.2, fmt.3, fmt.4, fmt.5));
    }

    /** `riff_id`, `file_size`, `wave_id`, `fmt_id` and `fmt_size`, bytes 0 to 20. */
    static method ReadRiffFields(file: BinaryFile) returns (r: Result<(seq<Byte>, nat, seq<Byte>, seq<Byte>, nat), WaveError>)
      requires file.pos == 0
      modifies file
      ensures r.Ok? <==> 20 <= |file.contents|
      ensures r.Err? ==> r.error == ShortRead
      ensures r.Ok? ==>
        file.pos == 20 &&
        r.value == (file.contents[0..4], Field(file.contents, 4, 4), file.contents[8..12],
                    file.contents[12..16], Field(file.contents, 16, 4))
    {
      ghost var input := file.contents;
      var riff := file.Read(4);
      var fileBytes :- file.ReadUnsigned(4);
      assert file.pos == 8 && riff == input[0..4];
      var wave := file.Read(4);
      var fmt := file.Read(4);
      var fmtBytes :- file.ReadUnsigned(4);
      assert wave == input[8..12] && fmt == input[12..16];
      return Ok((riff, fileBytes, wave, fmt, fmtBytes));
    }

    /**
     * `audio_format`, `audio_channels`, `sample_rate`, `byte_rate`,
     * `block_align` and `bits_per_sample`, bytes 20 to 36.
     */
    static method ReadFormatFields(file: BinaryFile) returns (r: Result<(nat, nat, nat, nat, nat, nat), WaveError>)
      requires file.pos == 20
      modifies file
      ensures r.Ok? <==> HeaderEnd <= |file.contents|
      ensures r.Err? ==> r.error == ShortRead
      ensures r.Ok? ==>
        file.pos == HeaderEnd &&
        r.value == (Field(file.contents, 20, 2), Field(file.contents, 22, 2), Field(file.contents, 24, 4),
                    Field(file.contents, 28, 4), Field(file.contents, 32, 2), Field(file.contents, 34, 2))
    {
      var format :- file.ReadUnsigned(2);
      assert file.pos == 22;
      var channels :- file.ReadUnsigned(2);
      assert file.pos == 24;
      var rate :- file.ReadUnsigned(4);
      assert file.pos == 28;
      var bytesPerSecond :- file.ReadUnsigned(4);
      assert file.pos == 32;
      var align :- file.ReadUnsigned(2);
      assert file.pos == 34;
      var bits :- file.ReadUnsigned(2);
      return Ok((format, channels, rate, bytesPerSecond, align, bits));
    }

    /**
     * The loop that reads sample `channel_number` of frame `sample_number`
     * from `raw_data[start:start + bytes_per_sample]`, `start` being
     * (sample_number * channels + channel_number) * bytes_per_sample.  It
     * stops at the first sample the bytes do not hold, which happens
     * exactly when `raw` is shorter than `numSamples` whole frames.
     */
    method Fill(raw: seq<Byte>) returns (ok: bool)
      requires amplitudes.Length0 == numSamples && amplitudes.Length1 == audioChannels
      requires bytesPerSample == Width(sampleFormat)
      modifies amplitudes
      ensures ok <==> FrameBytes(sampleFormat, numSamples, audioChannels) <= |raw|
      ensures ok ==> MatrixOf(amplitudes) == DecodeMatrix(sampleFormat, raw, numSamples, audioChannels)
    {
      var f, n, ch := sampleFormat, numSamples, audioChannels;
      var i := 0;
      while i < n
        invariant 0 <= i <= n
        invariant FrameBytes(f, i, ch) <= |raw|
        invariant forall i', c' :: 0 <= i' < i && 0 <= c' < ch ==> amplitudes[i', c'] == SampleAt(f, raw, ch, i', c')
      {
        var c := 0;
        while c < ch
          invariant 0 <= c <= ch
          invariant Mul(i, FrameWidth(f, ch)) + Mul(c, Width(f)) <= |raw|
          invariant forall i', c' :: 0 <= i' < i && 0 <= c' < ch ==> amplitudes[i', c'] == SampleAt(f, raw, ch, i', c')
          invariant forall c' :: 0 <= c' < c ==> amplitudes[i, c'] == SampleAt(f, raw, ch, i, c')
        {
          var start := (i * ch + c) * bytesPerSample;
          OffsetIsProduct(f, ch, i, c);
          var bytes := Slice(raw, start, start + bytesPerSample);
          if |bytes| != bytesPerSample {
            SampleWithin(f, ch, n, i, c);
            return false;
          }
          amplitudes[i, c] := DecodeSample(f, bytes);
          MulAdd(c, 1, Width(f));
          c := c + 1;
        }
        MulAdd(i, 1, FrameWidth(f, ch));
        i := i + 1;
      }
      Filled(amplitudes, f, raw, n, ch);
      return true;
    }

    /**
     * `find_data_block_size`: from the cursor, read a chunk id and size;
     * at `data`, record the id and return the size (refusing 0xFFFFFFFF);
     * otherwise seek past the chunk and repeat.  The cursor is left at the
     * payload.
     */
    method FindDataBlockSize(file: BinaryFile) returns (r: Result<nat, WaveError>)
      modifies this`dataId, file
      ensures r.Ok? <==> FindData(file.contents, old(file.pos)).Ok?
      ensures r.Err? ==> r.error == FindData(file.contents, old(file.pos)).error
      ensures r.Ok? ==>
        r.value == FindData(file.contents, old(file.pos)).value.size &&
        file.pos == FindData(file.contents, old(file.pos)).value.payload && dataId == DataTag
    {
      Pow256Values();
      while true
        invariant FindData(file.contents, file.pos) == FindData(file.contents, old(file.pos))
        decreases |file.contents| - file.pos
      {
        var blockId := file.Read(4);
        if |blockId| == 0 {
          return Err(EndOfFile);
        }
        var blockSize :- file.ReadUnsigned(4);
        if blockId == DataTag {
          dataId := blockId;
          if blockSize == MaxChunkSize {
            return Err(BadDataSize);
          }
          return Ok(blockSize);
        }
        file.Skip(blockSize);
      }
    }

    /** `isolate(source)`: the object's own amplitude array, not a copy, whatever the source. */
    method Isolate(source: string) returns (isolated: array2<int>)
      ensures isolated == amplitudes
    {
      isolated := amplitudes;
    }

    /**
     * The bytes `split` writes for one source: the 44-byte header with the
     * literal tags and the fields read, then every sample of `isolated`,
     * frame after frame.
     */
    method Encode(isolated: array2<int>) returns (out: seq<Byte>)
      requires Valid()
      requires isolated.Length1 == audioChannels && AllInRange(sampleFormat, MatrixOf(isolated))
      ensures out == EncodeWave(Model(), MatrixOf(isolated))
    {
      out := EncodeHeaderFields();
      var samples := EncodeSamples(sampleFormat, isolated);
      out := out + samples;
    }

    /** The header writes of `split`: the tags as literals, every field packed to its width. */
    method EncodeHeaderFields() returns (out: seq<Byte>)
      requires Fits(HeaderRead()) && dataSize < 0x1_0000_0000
      ensures out == EncodeHeader(HeaderRead(), dataSize)
    {
      Pow256Values();
      out := RiffTag + ToLittleEndian(fileSize, 4) + WaveTag;
      out := out + FmtTag + ToLittleEndian(fmtSize, 4) + ToLittleEndian(audioFormat, 2);
      out := out + ToLittleEndian(audioChannels, 2) + ToLittleEndian(sampleRate, 4);
      out := out + ToLittleEndian(byteRate, 4) + ToLittleEndian(blockAlign, 2);
      out := out + ToLittleEndian(bitsPerSample, 2);
      out := out + DataTag + ToLittleEndian(dataSize, 4);
    }

    /**
     * `split(output_directory, sources)`: for each source in order, the
     * isolated amplitudes written as a file named after the source.
     */
    method Split(sources: seq<string>) returns (files: seq<(string, seq<Byte>)>)
      requires Valid()
      ensures files == WaveSpec.Split(Model(), sources)
    {
      files := [];
      for k := 0 to |sources|
        invariant |files| == k
        invariant forall j :: 0 <= j < k ==> files[j] == (sources[j], EncodeWave(Model(), Model().amplitudes))
      {
        var isolated := Isolate(sources[k]);
        var out := Encode(isolated);
        files := files + [(sources[k], out)];
      }
    }
  }
}
