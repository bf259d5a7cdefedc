# siren: the WAV reader/writer and the command-line flags, in Dafny

`siren` is meant to separate a song into instrument tracks. It reads a PCM
`.wav` file into a `Waveform` object and writes one `.wav` file per requested
source. The command line (`-input`, `-output`, `-source`) is parsed by a
`Flags` object. Source separation itself is not written yet: `isolate`
returns the amplitudes unchanged. So every file `split` writes holds the
input's samples under a freshly written 44-byte header.

The model has two layers.

- A **value layer** of pure functions:
  - `WaveSpec.Decode` reads the header, checks the bit depth, scans for the
    `data` chunk and decodes the sample matrix.
  - `WaveSpec.EncodeWave` and `WaveSpec.Split` give the bytes `split`
    writes.
  - `FlagSpec.ParseArgs` is the argument scan and the three presence checks.

  `Samples` and `Bytes` hold the little-endian and two's-complement codecs
  and the frame layout.
- An **imperative layer** that follows the program's own steps:
  - `Waveform.BinaryFile` is a file with a cursor: `read`, `struct.unpack`
    and `seek`.
  - `Waveform.Waveform` is a class with the same fields as the Python
    object. Its methods are the header reads, the chunk-scan loop, the
    nested fill loop over a two-dimensional array, and `split` with its
    nested write loops.
  - `Flags.Flags` is a class whose `Parse` runs the argument loop and
    updates `input`, `output` and `source` in place.

Each method is proved equal to the value layer. The properties are then
proved about the value layer (modules `WaveProperties` and `FlagProperties`).

Where the code behaves unexpectedly, the model does what the code does:

- The chunk scan always starts at byte 36, whatever `fmt_size` says.
- Chunk sizes are skipped without a RIFF pad byte.
- The tags "RIFF", "WAVE" and "fmt " are never checked on reading.
- A `data` size of 0xFFFFFFFF is refused.
- A trailing partial frame is silently dropped: nothing checks that
  `data_size` is a whole number of frames (waveform.py:65).
- Zero channels fails with a division by zero.
- `split` writes the literal tags and the original `data` size, even when a
  partial frame was dropped. So its file then declares more bytes than it
  holds (`WaveProperties.DeclaredSizeExact`).

Python's exceptions become the `WaveError` and `FlagError` results. A
`struct.unpack` on a short read is `ShortRead`.

## Model

| member | source | states |
|---|---|---|
| Waveform.BinaryFile.Read | waveform.py:37 | `file.read(n)` returns the up-to-n bytes at the cursor (fewer near the end, none past it) and moves the cursor past them |
| Waveform.BinaryFile.ReadUnsigned | waveform.py:38 | `struct.unpack('<I'/'<H', file.read(n))` succeeds iff n bytes remain, yields the little-endian value of those bytes, and moves the cursor even when it fails |
| Waveform.BinaryFile.Skip | waveform.py:118 | `file.seek(block_size, SEEK_CUR)` moves the cursor by the offset, possibly past the end |
| WaveSpec.ParseHeader | waveform.py:37-49 | the fixed-offset header parse succeeds iff the file holds 36 bytes, and every field then fits its 2- or 4-byte width |
| Waveform.Waveform.ReadHeader | waveform.py:37-49 | the eleven reads in order return exactly `ParseHeader` of the file and leave the cursor at 36 |
| Waveform.Waveform.ReadRiffFields | waveform.py:37-43 | the RIFF id, file size, WAVE id, fmt id and fmt size are bytes 0-4, 4-8, 8-12, 12-16 and the field at 16; they fail iff the file is shorter than 20 bytes |
| Waveform.Waveform.ReadFormatFields | waveform.py:44-49 | the six format fields are the little-endian fields at 20, 22, 24, 28, 32 and 34; they fail iff the file is shorter than 36 bytes |
| WaveSpec.SampleFormatOf | waveform.py:50-60 | only 8, 16 and 32 bits per sample are accepted, and the sample width is then bits // 8 |
| WaveProperties.BitDepthChecked | waveform.py:51-52 | once the header is read, the decode fails with the bit-depth error iff bits per sample is not 8, 16 or 32 |
| Bytes.ReadAt | waveform.py:76 | `file.read(n)` at a position: at most n bytes; exactly the n bytes there when they exist, none past the end, and otherwise the bytes up to the end |
| Bytes.Slice | waveform.py:82 | Python's clamped slice `raw_data[lo:hi]`: the bytes from lo to hi when hi is within the data, and of full length exactly then |
| Bytes.LittleEndian | waveform.py:38 | `struct.unpack('<I' or '<H')`: the value of n little-endian bytes is below 256^n |
| Bytes.ToLittleEndian | waveform.py:133 | `struct.pack('<I' or '<H', v)` for v below 256^n: n bytes that unpack to v |
| Waveform.BinaryFile.constructor | waveform.py:35 | a file opened with 'rb' holds its bytes with the cursor at 0 |
| Waveform.Waveform.constructor | waveform.py:29 | the object before any file is read: no frames, no channels, and an amplitude array of its own |
| Samples.NumFrames | waveform.py:65 | `data_size // (bytes_per_sample * audio_channels)` is at most the size, and zero exactly when the size is below one frame |
| Samples.DecodeMatrix | waveform.py:79-83 | the decoded matrix has `num_samples` frames of `audio_channels` samples, each in the dtype's range |
| WaveSpec.FindData | waveform.py:95-118 | the scan, when it succeeds, returns a payload offset at least 8 past the start and within the file, and a size below 0xFFFFFFFF; its only errors are end of file, short read and the refused size |
| WaveProperties.FindDataSound | waveform.py:103-118 | the chunk found really has the id `data` and the declared size at its header, that size is not 0xFFFFFFFF, and its header is reached from the start by skipping whole non-`data` chunks |
| WaveProperties.ScanSkipsChunk | waveform.py:116-118 | a chunk whose id is not `data` is skipped by 8 plus its declared size, with no pad byte |
| WaveProperties.ScanRunsOffTheEnd | waveform.py:104-106 | skipping a chunk that reaches past the end ends the scan with the end-of-file error |
| WaveProperties.FindDataReadsOnlyFrom | waveform.py:95-118 | the scan's result depends only on the bytes from its starting point on |
| WaveProperties.ScanMeetsData | waveform.py:111-115 | where the scan meets a `data` chunk it stops: size 0xFFFFFFFF is refused, any other size is returned with the payload right after the chunk header |
| WaveProperties.ScanSkipsTo | waveform.py:103-118 | skipping any run of non-`data` chunks does not change what the scan finds |
| WaveProperties.DataSizeMaxRefused | waveform.py:111-114 | a `data` chunk declaring size 0xFFFFFFFF makes the whole read fail with that error wherever the scan meets it, right after the header or after skipped chunks |
| Waveform.Waveform.FindDataBlockSize | waveform.py:95-118 | the loop returns the same success or error as `FindData` from the cursor, and on success records the `data` id and leaves the cursor at the payload |
| WaveSpec.DecodeData | waveform.py:63-83 | the sample part fails iff there are zero channels or the bytes read hold fewer than `num_samples` whole frames; on success the wave is well formed and keeps the header, format and declared size |
| WaveSpec.Decode | waveform.py:29-83 | on success the header is `ParseHeader`'s, the bit depth is accepted, the declared size is the one the scan found, and the wave is well formed |
| WaveProperties.HeaderFailure | waveform.py:37-49 | a file too short for the header fails the whole read with the header's error |
| WaveProperties.ScanFailure | waveform.py:63 | a scan that fails after a good header and bit depth fails the whole read with the scan's error |
| WaveProperties.ZeroChannelsRefused | waveform.py:65 | zero audio channels fails with the division-by-zero error |
| WaveProperties.DecodedSampleAt | waveform.py:79-83 | amplitude (i, c) is the sample decoded from the bytes at payload + (i * channels + c) * width |
| WaveProperties.PartialFrameDropped | waveform.py:65-83 | the amplitudes are the decoded whole frames of the payload; at most one partial frame, fewer bytes than a frame, is left over and ignored |
| Waveform.Waveform.Load | waveform.py:29-83 | constructing a `Waveform` from a file fails iff `Decode` fails, with the same error, and otherwise leaves the object valid and equal to `Decode`'s wave |
| Waveform.Waveform.LoadData | waveform.py:62-83 | once the header and format are set, the scan and the sample reading agree with `Decode` |
| Waveform.Waveform.LoadSamples | waveform.py:64-83 | the bit rate, frame count, allocation, read and fill agree with `DecodeData` on the chunk found |
| Waveform.Waveform.Fill | waveform.py:79-83 | the nested fill loop succeeds iff the bytes read hold `num_samples` whole frames, and then the array holds the decoded matrix |
| Samples.DecodeSample | waveform.py:82 | `struct.unpack` of one sample gives a value the dtype can hold (unsigned byte, or two's-complement 16/32 bits) |
| Samples.EncodeSample | waveform.py:153 | `struct.pack` of an in-range value gives `width` bytes that unpack to that value |
| Samples.EncodeDecodeSample | waveform.py:153 | packing an unpacked sample gives back its bytes |
| Samples.OffsetIsProduct | waveform.py:81 | the offset of sample (i, c) is (i * channels + c) * bytes_per_sample |
| Samples.WholeFrames | waveform.py:65 | `num_samples` whole frames fit in the declared size, and one more frame would not |
| Samples.ExactFrames | waveform.py:65 | the whole frames fill the declared size iff the size is a multiple of the frame width |
| Samples.DecodeMatrixAt | waveform.py:79-83 | sample c of frame i of the decoded matrix comes from the bytes at the frame-major interleaved offset |
| Samples.EncodeMatrix | waveform.py:151-153 | the bytes of the nested write loops; its contract is in `Samples.EncodeDecodedMatrix`, `Samples.DecodeEncodedMatrix` and `WaveProperties.EncodeLayout` |
| Samples.EncodeDecodedMatrix | waveform.py:151-153 | writing the decoded matrix gives back the bytes of its whole frames |
| Samples.DecodeEncodedMatrix | waveform.py:79-83 | decoding the bytes written for an in-range matrix gives the matrix back |
| WaveSpec.EncodeHeader | waveform.py:131-148 | the header `split` writes is 44 bytes with the literal tags "RIFF", "WAVE", "fmt " and "data" at 0, 8, 12 and 36 |
| WaveProperties.HeaderBytes | waveform.py:131-148 | each field of the written header is the field read, packed little-endian to its width at its offset, and `data_size` is at 40 |
| Waveform.Waveform.EncodeHeaderFields | waveform.py:131-148 | the header writes in order produce `EncodeHeader` of the fields read |
| Waveform.EncodeSamples | waveform.py:151-153 | the nested write loops produce every frame's samples, packed, in order |
| Waveform.EncodeRow | waveform.py:152-153 | the inner loop packs one frame's samples in order |
| Waveform.Waveform.Encode | waveform.py:131-153 | one output file is the written header followed by the packed samples of the isolated amplitudes |
| WaveSpec.EncodeWave | waveform.py:131-153 | the bytes of one file `split` writes; its layout is stated by `WaveProperties.EncodeLayout` and its inverse by `WaveProperties.DecodeEncodedWave` |
| WaveProperties.EncodeLayout | waveform.py:131-153 | the written file is 44 bytes of header plus the whole frames; it carries the `data` tag at 36 and the declared size at 40 |
| WaveProperties.DeclaredSizeExact | waveform.py:148-153 | the written file's length equals 44 plus the declared `data` size iff that size was a whole number of frames |
| WaveProperties.FindEncodedData | waveform.py:131-153 | scanning a written file from 36 finds its `data` chunk at once, with the declared size and the payload at 44 |
| WaveProperties.DecodeEncodedData | waveform.py:63-83 | the samples of a written file decode to the wave it was written from |
| WaveProperties.DecodeEncodedWave | waveform.py:120-157 | reading back a file `split` wrote gives the wave it came from, when the tags read were the literal ones |
| WaveProperties.ParseEncodedHeader | waveform.py:37-49 | parsing a written header gives back the header written, when its tags are the literals |
| WaveProperties.EncodeParsedHeader | waveform.py:131-148 | for a file with the literal tags at 0, 8, 12 and 36, rewriting the parsed header reproduces its first 44 bytes |
| WaveProperties.EncodeDecodedData | waveform.py:151-153 | when the declared size is a whole number of frames, writing the decoded amplitudes reproduces the payload byte for byte |
| WaveProperties.RoundTrip | waveform.py:120-157 | for a file with the literal tags, `data` at 36 and a whole number of frames, every file `split` writes is the input's first 44 + data_size bytes |
| WaveProperties.ParseHeaderIgnoresTags | waveform.py:37-43 | the header parse takes the tags and fmt size as they are, whatever their bytes |
| WaveProperties.TagsAndFmtSizeIgnored | waveform.py:37-63 | changing the tags or fmt size changes nothing of the read but those fields: in particular the scan still starts at 36 |
| WaveSpec.Isolate | waveform.py:159-166 | `isolate` returns the amplitudes unchanged, whatever the source |
| Waveform.Waveform.Isolate | waveform.py:159-166 | `isolate` returns the object's own array, not a copy |
| WaveSpec.Split | waveform.py:120-157 | `split` writes one file per source, in order, each named after its source |
| Waveform.Waveform.Split | waveform.py:120-157 | the loop over sources produces exactly `WaveSpec.Split` of the object |
| Flags.Flags.constructor | flags.py:5-12 | the attributes start empty and `args` is `sys.argv[1:]` |
| Flags.Flags.Parse | flags.py:14-40 | the loop and the presence checks fail iff `ParseArgs` fails, with the same error, and otherwise leave `input`, `output` and `source` equal to its values |
| FlagSpec.EndsWith | flags.py:17 | `s.endswith(suffix)`: the suffix is no longer than `s` and equals its last characters |
| FlagSpec.EndsWithIsSuffix | flags.py:17 | `s.endswith(suffix)` holds exactly when `s` is some string followed by `suffix` |
| FlagSpec.AppendInstruments | flags.py:29-33 | the inner `-source` loop's only error is the unknown-instrument one, and it only appends to the sources |
| FlagSpec.Step | flags.py:15-33 | one pass of the loop body raises only the four argument errors; it sets `input` (or `output`) only at `-input` (or `-output`), to the next argument; it only appends to the sources |
| FlagSpec.ScanFrom | flags.py:15-33 | the loop raises only the four argument errors, only appends to the sources, and sets a missing input only when an `-input` follows |
| FlagSpec.ParseArgs | flags.py:14-40 | an accepted command line contains `-input` and has at least one source; its full characterisation is in the `FlagProperties` lemmas |
| FlagSpec.IndexError | flags.py:16-33 | the reference for what one argument raises: only a flag raises, and the missing-value error comes exactly from `-input` or `-output` as the last argument |
| FlagProperties.AppendInstrumentsAll | flags.py:29-33 | the inner loop succeeds iff every later argument is an instrument, and then appends them all in order |
| FlagProperties.StepChecks | flags.py:15-33 | one argument's three checks fail iff that argument raises, with the error it raises |
| FlagProperties.ScanChecks | flags.py:15-33 | the scan succeeds iff no argument raises; otherwise its error is that of the first argument that does |
| FlagProperties.ScanKeepsLastInput | flags.py:16-18 | the input is the value after the last `-input`, or unchanged when there is none |
| FlagProperties.ScanKeepsLastOutput | flags.py:22-24 | the output is the value after the last `-output`, or unchanged when there is none |
| FlagProperties.ScanTakesSources | flags.py:28-31 | after a `-source`, the sources are those before plus every later argument |
| FlagProperties.ParseArgsAccepts | flags.py:14-40 | parsing succeeds iff no argument raises and `-input`, `-output` and a `-source` followed by something are all present |
| FlagProperties.PresenceChecks | flags.py:35-40 | when no argument raises, the no-input, no-output and no-source errors come exactly when the corresponding flag is missing, in that order |
| FlagProperties.ScannedInput | flags.py:15-18 | after an accepted loop, `input` is set iff `-input` occurs, and then to the argument after its last occurrence |
| FlagProperties.ScannedOutput | flags.py:22-24 | after an accepted loop, `output` is set iff `-output` occurs, and then to the argument after its last occurrence |
| FlagProperties.ScannedSources | flags.py:28-31 | after an accepted loop, `source` is non-empty iff some `-source` has an argument after it, and it is everything after that `-source` |
| FlagProperties.FlagPresent | flags.py:16-26 | when no argument raises, `-input` or `-output` occurs iff it has a last occurrence with a value after it |
| FlagProperties.ParseArgsRejects | flags.py:14-33 | when some argument raises, parsing fails with the error of the first argument that raises |
| FlagProperties.ParseArgsValues | flags.py:14-40 | an accepted command line takes its input and output from after the last `-input` and `-output`, and its sources from everything after a `-source` |
| FlagProperties.ParseArgsValid | flags.py:14-40 | an accepted command line has a ".wav" input, an output that is a directory, and at least one source, all instruments |

## Left out

- Logging to standard output (the debug lines, the file report, `data_size_mb`, the flags report) is not modelled: it changes no state the model has.
- File names and paths are left out: `input_directory`, `open`, the output name `{output_directory}{source}.wav`, `flush`. A file is its bytes: `BinaryFile` for reading, and a (source, bytes) pair for each file written.
- `os.path.isdir` is the parameter `isDir`, and `sys.argv` is the constructor's parameter `argv`.
- numpy arrays are `array2<int>`. The dtype's range (uint8, int16 or int32) is the `InRange` predicate the decoded samples satisfy.
- `Waveform.__init__` raises on failure. Here the object is built empty and `Load` returns an error instead, because a Dafny constructor cannot fail. The header fields are read into locals and then assigned, not assigned one by one as they are read; a failed read leaves the object unusable in both.
- Flags.Flags.Parse: requires the freshly constructed state and is called after the constructor, where the Python does both in `__init__`.
- The numpy dtype's own wrap-around on assignment never occurs, because every decoded sample is already in range; `int(sample)` in `split` is the identity on these values.
- `siren.py` is not part of this model: it is the driver that builds `Flags` and `Waveform` and plots the channels with matplotlib (siren.py:12-21).
- `decompose.py` is not part of this model: `Decomposer.decompose` is an unused identity stub, and the isolation the program uses is `Waveform.isolate`, which is modelled.
- The report part of `waveform.py` (lines 85-93) is not part of this model.
