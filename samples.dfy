/**
 * The sample codec: the three PCM sample encodings the waveform accepts
 * (struct formats '<B', '<h' and '<i') and the interleaved, frame-major
 * layout of the data chunk.
 */
module Samples {
  import opened Bytes

  /** '<B' for 8-bit, '<h' for 16-bit and '<i' for 32-bit samples. */
  datatype SampleFormat = UnsignedByte | SignedLE16 | SignedLE32

  /** Bytes per sample. */
  function Width(f: SampleFormat): nat
  {
    match f
    case UnsignedByte => 1
    case SignedLE16 => 2
    case SignedLE32 => 4
  }

  /** The values the amplitude array's dtype (uint8, int16, int32) can hold. */
  predicate InRange(f: SampleFormat, v: int)
  {
    match f
    case UnsignedByte => 0 <= v < 0x100
    case SignedLE16 => -0x8000 <= v < 0x8000
    case SignedLE32 => -0x8000_0000 <= v < 0x8000_0000
  }

  /** `struct.unpack(fmt, b)[0]`: unsigned for 8-bit, two's complement otherwise. */
  function DecodeSample(f: SampleFormat, b: seq<Byte>): (v: int)
    requires |b| == Width(f)
    ensures InRange(f, v)
  {
    Pow256Values();
    var u := LittleEndian(b);
    match f
    case UnsignedByte => u
    case SignedLE16 => if u < 0x8000 then u else u - 0x1_0000
    case SignedLE32 => if u < 0x8000_0000 then u else u - 0x1_0000_0000
  }

  /** `struct.pack(fmt, v)` for a value the format can hold. */
  function EncodeSample(f: SampleFormat, v: int): (b: seq<Byte>)
    requires InRange(f, v)
    ensures |b| == Width(f)
    ensures DecodeSample(f, b) == v
  {
    Pow256Values();
    ToLittleEndian(if v < 0 then v + Pow256(Width(f)) else v, Width(f))
  }

  /** Every `Width(f)` bytes decode to a sample that encodes back to them. */
  lemma EncodeDecodeSample(f: SampleFormat, b: seq<Byte>)
    requires |b| == Width(f)
    ensures EncodeSample(f, DecodeSample(f, b)) == b
  {
    Pow256Values();
    ToLittleEndianOfLittleEndian(b);
  }

  /*
   * Offsets into the payload are products of naturals.  They are written with
   * `Mul`, multiplication unfolded one addition at a time, so that proofs about
   * the layout stay within linear arithmetic; `MulIsProduct` ties it to `*`.
   */

  function Mul(a: nat, b: nat): nat
  {
    if a == 0 then 0 else Mul(a - 1, b) + b
  }

  lemma {:induction false} MulIsProduct(a: nat, b: nat)
    ensures Mul(a, b) == a * b
  {
    if a > 0 {
      MulIsProduct(a - 1, b);
    }
  }

  lemma {:induction false} MulMonotonic(a: nat, b: nat, k: nat)
    requires a <= b
    ensures Mul(a, k) <= Mul(b, k)
  {
    if a < b {
      MulMonotonic(a, b - 1, k);
    }
  }

  lemma {:induction false} MulAdd(a: nat, b: nat, k: nat)
    ensures Mul(a + b, k) == Mul(a, k) + Mul(b, k)
  {
    if b > 0 {
      MulAdd(a, b - 1, k);
    }
  }



  /** Bytes taken by one frame of `channels` samples: channels * width. */
  function FrameWidth(f: SampleFormat, channels: nat): nat
  {
    Mul(channels, Width(f))
  }

  /** Bytes taken by `n` whole frames: n * channels * width. */
  function FrameBytes(f: SampleFormat, n: nat, channels: nat): nat
  {
    Mul(n, FrameWidth(f, channels))
  }

  /** Byte offset of sample `c` of frame `i` in the data payload: (i * channels + c) * width. */
  function SampleOffset(f: SampleFormat, channels: nat, i: nat, c: nat): nat
  {
    Mul(i, FrameWidth(f, channels)) + Mul(c, Width(f))
  }

  /** The offset is the source's `(sample_number * audio_channels + channel_number) * bytes_per_sample`. */
  lemma OffsetIsProduct(f: SampleFormat, channels: nat, i: nat, c: nat)
    ensures SampleOffset(f, channels, i, c) == (i * channels + c) * Width(f)
  {
    var w := Width(f);
    MulIsProduct(channels, w);
    MulIsProduct(i, channels * w);
    MulIsProduct(c, w);
    Distributes(i * channels, c, w);
    Associates(i, channels, w);
  }

  lemma Distributes(a: int, b: int, k: int)
    ensures (a + b) * k == a * k + b * k
  {
  }

  lemma Associates(a: int, b: int, k: int)
    ensures (a * b) * k == a * (b * k)
  {
  }

  /** `size // (bytes_per_sample * channels)`: the number of whole frames in `size` bytes. */
  function NumFrames(f: SampleFormat, size: nat, channels: nat): (n: nat)
    requires channels > 0
    ensures n <= size
    ensures n == 0 <==> size < Width(f) * channels
  {
    var fw := Width(f) * channels;
    PositiveProduct(Width(f), channels);
    QuotientBounds(size, fw);
    Quotient(size, fw)
  }

  /** A quotient by a positive divisor is at most the dividend, and zero exactly below the divisor. */
  lemma QuotientBounds(a: nat, d: nat)
    requires d > 0
    ensures a / d <= a
    ensures a / d == 0 <==> a < d
  {
    var q := a / d;
    DivisionBounds(a, d);
    AtLeastFactor(q, d);
    assert q <= q * d <= a;
    if q == 0 {
      assert a < (q + 1) * d == d;
    } else {
      AtLeastFactor(d, q);
      assert d <= d * q <= a;
    }
  }

  /** Multiplying by a positive factor does not make a number smaller. */
  lemma AtLeastFactor(q: nat, d: nat)
    requires d > 0
    ensures q <= q * d
  {
    Distributes(d - 1, 1, q);
    NonNegativeProduct(d - 1, q);
  }

  function Quotient(a: nat, d: nat): nat
    requires d > 0
  {
    a / d
  }

  lemma PositiveProduct(a: nat, b: nat)
    requires a > 0 && b > 0
    ensures a * b > 0
  {
  }

  /**
   * `NumFrames` whole frames fit in `size` bytes and one more does not: the
   * bytes of a trailing partial frame are left over.
   */
  lemma WholeFrames(f: SampleFormat, size: nat, channels: nat)
    requires channels > 0
    ensures FrameBytes(f, NumFrames(f, size, channels), channels) <= size
    ensures size < FrameBytes(f, NumFrames(f, size, channels) + 1, channels)
  {
    var w := Width(f);
    var fw := w * channels;
    var n := NumFrames(f, size, channels);
    MulIsProduct(channels, w);
    MulIsProduct(n, fw);
    MulIsProduct(n + 1, fw);
    assert channels * w == fw;
    DivisionBounds(size, fw);
  }

  /**
   * `NumFrames` frames take exactly `size` bytes when, and only when, `size`
   * is a whole number of frames.
   */
  lemma ExactFrames(f: SampleFormat, size: nat, channels: nat)
    requires channels > 0
    ensures FrameBytes(f, NumFrames(f, size, channels), channels) == size <==> size % (Width(f) * channels) == 0
  {
    var w := Width(f);
    var fw := w * channels;
    var n := NumFrames(f, size, channels);
    MulIsProduct(channels, w);
    MulIsProduct(n, fw);
    assert channels * w == fw;
    if size % fw == 0 {
      DivisionExact(size, fw);
    } else {
      NoRemainder(n, fw);
    }
  }

  lemma {:induction false} NoRemainder(n: nat, d: nat)
    requires d > 0
    ensures (n * d) % d == 0
  {
    if n > 0 {
      NoRemainder(n - 1, d);
      assert n * d == (n - 1) * d + d;
      ShiftMod((n - 1) * d, d);
    }
  }

  lemma ShiftMod(x: nat, d: nat)
    requires d > 0
    ensures (x + d) % d == x % d
  {
    var q, r := x / d, x % d;
    var q2, r2 := (x + d) / d, (x + d) % d;
    assert d * (q2 - q - 1) == r - r2;
    OnlyZeroIsSmall(d, q2 - q - 1);
  }

  /** The only multiple of `d` strictly between -d and d is 0. */
  lemma OnlyZeroIsSmall(d: int, a: int)
    requires d > 0 && -d < d * a < d
    ensures a == 0
  {
    if a >= 1 {
      assert d * a == d + d * (a - 1);
      NonNegativeProduct(d, a - 1);
    } else if a <= -1 {
      NonPositiveProduct(d, a + 1);
    }
  }

  lemma NonNegativeProduct(d: nat, a: nat)
    ensures d * a >= 0
  {
  }

  lemma NonPositiveProduct(d: nat, a: int)
    requires a <= 0
    ensures d * a <= 0
  {
    assert d * a == -(d * -a);
    NonNegativeProduct(d, -a);
  }

  lemma DivisionExact(a: nat, d: nat)
    requires d > 0 && a % d == 0
    ensures (a / d) * d == a
  {
  }

  lemma DivisionBounds(a: nat, d: nat)
    requires d > 0
    ensures (a / d) * d <= a < (a / d + 1) * d
  {
  }

  /** A sample of a frame before frame `n` lies within the first `n` frames' bytes. */
  lemma SampleWithin(f: SampleFormat, channels: nat, n: nat, i: nat, c: nat)
    requires i < n && c < channels
    ensures SampleOffset(f, channels, i, c) + Width(f) <= FrameBytes(f, n, channels)
  {
    MulMonotonic(c + 1, channels, Width(f));
    MulMonotonic(i + 1, n, FrameWidth(f, channels));
  }

  /** A matrix of `channels` samples per frame. */
  predicate IsMatrix(m: seq<seq<int>>, channels: nat)
  {
    forall i :: 0 <= i < |m| ==> |m[i]| == channels
  }

  predicate FrameInRange(f: SampleFormat, frame: seq<int>)
  {
    forall c :: 0 <= c < |frame| ==> InRange(f, frame[c])
  }

  predicate AllInRange(f: SampleFormat, m: seq<seq<int>>)
  {
    forall i :: 0 <= i < |m| ==> FrameInRange(f, m[i])
  }

  /*
   * Byte layout.  `Cut` splits a byte string into `count` consecutive pieces
   * of `width` bytes and `Join` concatenates pieces again; neither looks at
   * what the bytes mean.
   */

  /** Every piece is `width` bytes long. */
  predicate Uniform(pieces: seq<seq<Byte>>, width: nat)
  {
    forall k :: 0 <= k < |pieces| ==> |pieces[k]| == width
  }

  function Cut(raw: seq<Byte>, width: nat, count: nat): (pieces: seq<seq<Byte>>)
    requires Mul(count, width) <= |raw|
    ensures |pieces| == count && Uniform(pieces, width)
  {
    if count == 0 then [] else [raw[..width]] + Cut(raw[width..], width, count - 1)
  }

  function Join(pieces: seq<seq<Byte>>): seq<Byte>
  {
    if |pieces| == 0 then [] else pieces[0] + Join(pieces[1..])
  }

  /** Piece `k` is the `width` bytes at offset k * width. */
  lemma {:induction false} CutAt(raw: seq<Byte>, width: nat, count: nat, k: nat)
    requires Mul(count, width) <= |raw| && k < count
    ensures Mul(k, width) + width <= |raw|
    ensures Cut(raw, width, count)[k] == raw[Mul(k, width)..Mul(k, width) + width]
  {
    if k > 0 {
      var off := Mul(k - 1, width);
      CutStep(raw, width, count, k);
      CutAt(raw[width..], width, count - 1, k - 1);
      DropThenSlice(raw, width, off, off + width);
      assert Cut(raw, width, count)[k] == raw[width + off..width + off + width];
    }
  }

  /** Past the first piece, the pieces are those of the bytes after it. */
  lemma CutStep(raw: seq<Byte>, width: nat, count: nat, k: nat)
    requires Mul(count, width) <= |raw| && 0 < k < count
    ensures width <= |raw| && Mul(count - 1, width) <= |raw| - width
    ensures Mul(k, width) == Mul(k - 1, width) + width
    ensures Cut(raw, width, count)[k] == Cut(raw[width..], width, count - 1)[k - 1]
  {
    assert Cut(raw, width, count) == [raw[..width]] + Cut(raw[width..], width, count - 1);
  }

  /** Slicing the bytes after `lo` is slicing the whole, shifted by `lo`. */
  lemma DropThenSlice(s: seq<Byte>, lo: nat, a: nat, b: nat)
    requires lo <= |s| && a <= b <= |s| - lo
    ensures s[lo..][a..b] == s[lo + a..lo + b]
  {
    assert s[lo..] == s[lo..|s|];
    SliceOfSlice(s, lo, |s|, a, b);
  }

  /** Joining the pieces gives back the bytes that were cut. */
  lemma {:induction false} JoinCut(raw: seq<Byte>, width: nat, count: nat)
    requires Mul(count, width) <= |raw|
    ensures Join(Cut(raw, width, count)) == raw[..Mul(count, width)]
  {
    if count > 0 {
      var rest := raw[width..];
      JoinCut(rest, width, count - 1);
      assert raw[..width] + rest[..Mul(count - 1, width)] == raw[..Mul(count, width)];
    }
  }

  /** Cutting joined pieces of equal width gives back the pieces. */
  lemma {:induction false} CutJoin(pieces: seq<seq<Byte>>, width: nat)
    requires Uniform(pieces, width)
    ensures |Join(pieces)| == Mul(|pieces|, width)
    ensures Cut(Join(pieces), width, |pieces|) == pieces
  {
    if |pieces| > 0 {
      var rest := pieces[1..];
      CutJoin(rest, width);
      var b := Join(pieces);
      assert b[..width] == pieces[0] && b[width..] == Join(rest);
      assert pieces == [pieces[0]] + rest;
    }
  }

  /** Cutting looks only at the first count * width bytes. */
  lemma {:induction false} CutIgnoresRest(b: seq<Byte>, rest: seq<Byte>, width: nat, count: nat)
    requires Mul(count, width) <= |b|
    ensures Cut(b + rest, width, count) == Cut(b, width, count)
  {
    if count > 0 {
      assert (b + rest)[..width] == b[..width];
      assert (b + rest)[width..] == b[width..] + rest;
      CutIgnoresRest(b[width..], rest, width, count - 1);
    }
  }

  /*
   * Samples.  A frame is decoded piece by piece and encoded sample by sample.
   */

  /** Each piece read as one sample. */
  function DecodeAll(f: SampleFormat, pieces: seq<seq<Byte>>): (frame: seq<int>)
    requires Uniform(pieces, Width(f))
    ensures |frame| == |pieces| && FrameInRange(f, frame)
  {
    seq(|pieces|, k requires 0 <= k < |pieces| => DecodeSample(f, pieces[k]))
  }

  /** Each sample packed on its own. */
  function EncodeAll(f: SampleFormat, frame: seq<int>): (pieces: seq<seq<Byte>>)
    requires FrameInRange(f, frame)
    ensures |pieces| == |frame| && Uniform(pieces, Width(f))
  {
    seq(|frame|, k requires 0 <= k < |frame| => EncodeSample(f, frame[k]))
  }

  lemma EncodeAllDecodeAll(f: SampleFormat, pieces: seq<seq<Byte>>)
    requires Uniform(pieces, Width(f))
    ensures EncodeAll(f, DecodeAll(f, pieces)) == pieces
  {
    var e := EncodeAll(f, DecodeAll(f, pieces));
    forall k | 0 <= k < |pieces|
      ensures e[k] == pieces[k]
    {
      EncodeDecodeSample(f, pieces[k]);
    }
  }

  /** One frame: `count` samples read one after the other from the front of `raw`. */
  function DecodeFrame(f: SampleFormat, raw: seq<Byte>, count: nat): (frame: seq<int>)
    requires Mul(count, Width(f)) <= |raw|
    ensures |frame| == count && FrameInRange(f, frame)
  {
    DecodeAll(f, Cut(raw, Width(f), count))
  }

  /** The bytes written for one frame, sample after sample. */
  function EncodeFrame(f: SampleFormat, frame: seq<int>): seq<Byte>
    requires FrameInRange(f, frame)
  {
    Join(EncodeAll(f, frame))
  }

  /** Each frame's bytes read as a frame of `channels` samples. */
  function DecodeFrames(f: SampleFormat, frames: seq<seq<Byte>>, channels: nat): (m: seq<seq<int>>)
    requires Uniform(frames, FrameWidth(f, channels))
    ensures |m| == |frames| && IsMatrix(m, channels) && AllInRange(f, m)
  {
    seq(|frames|, i requires 0 <= i < |frames| => DecodeFrame(f, frames[i], channels))
  }

  /** Each frame encoded on its own. */
  function EncodeFrames(f: SampleFormat, m: seq<seq<int>>): (frames: seq<seq<Byte>>)
    requires AllInRange(f, m)
    ensures |frames| == |m|
  {
    seq(|m|, i requires 0 <= i < |m| => EncodeFrame(f, m[i]))
  }

  /**
   * The amplitude matrix: `n` frames of `channels` samples read from the
   * front of the payload `raw`; bytes past the `n`th frame are not read.
   */
  function DecodeMatrix(f: SampleFormat, raw: seq<Byte>, n: nat, channels: nat): (m: seq<seq<int>>)
    requires FrameBytes(f, n, channels) <= |raw|
    ensures |m| == n && IsMatrix(m, channels) && AllInRange(f, m)
  {
    DecodeFrames(f, Cut(raw, FrameWidth(f, channels), n), channels)
  }

  /** The bytes written for a matrix, frame after frame. */
  function EncodeMatrix(f: SampleFormat, m: seq<seq<int>>): seq<Byte>
    requires AllInRange(f, m)
  {
    Join(EncodeFrames(f, m))
  }

  /** Sample `c` of a decoded frame comes from the `c`th `Width(f)` bytes. */
  lemma DecodeFrameAt(f: SampleFormat, raw: seq<Byte>, count: nat, c: nat)
    requires Mul(count, Width(f)) <= |raw| && c < count
    ensures Mul(c, Width(f)) + Width(f) <= |raw|
    ensures DecodeFrame(f, raw, count)[c] == DecodeSample(f, raw[Mul(c, Width(f))..Mul(c, Width(f)) + Width(f)])
  {
    CutAt(raw, Width(f), count, c);
  }

  /** Frame `i` of a decoded matrix is decoded from the bytes at offset i * channels * width. */
  lemma DecodeMatrixFrame(f: SampleFormat, raw: seq<Byte>, n: nat, channels: nat, i: nat)
    requires FrameBytes(f, n, channels) <= |raw| && i < n
    ensures Mul(i, FrameWidth(f, channels)) + FrameWidth(f, channels) <= |raw|
    ensures DecodeMatrix(f, raw, n, channels)[i]
      == DecodeFrame(f, raw[Mul(i, FrameWidth(f, channels))..Mul(i, FrameWidth(f, channels)) + FrameWidth(f, channels)], channels)
  {
    CutAt(raw, FrameWidth(f, channels), n, i);
  }

  /**
   * Sample `c` of frame `i` of a decoded matrix is the sample stored at
   * `SampleOffset`: the frame-major interleaved layout of the payload.
   */
  lemma DecodeMatrixAt(f: SampleFormat, raw: seq<Byte>, n: nat, channels: nat, i: nat, c: nat)
    requires FrameBytes(f, n, channels) <= |raw| && i < n && c < channels
    ensures SampleOffset(f, channels, i, c) + Width(f) <= |raw|
    ensures DecodeMatrix(f, raw, n, channels)[i][c]
      == DecodeSample(f, raw[SampleOffset(f, channels, i, c)..SampleOffset(f, channels, i, c) + Width(f)])
  {
    var w, fw := Width(f), FrameWidth(f, channels);
    var base, cw := Mul(i, fw), Mul(c, w);
    DecodeMatrixFrame(f, raw, n, channels, i);
    var frame := raw[base..base + fw];
    DecodeFrameAt(f, frame, channels, c);
    SliceOfSlice(raw, base, base + fw, cw, cw + w);
    assert DecodeMatrix(f, raw, n, channels)[i][c] == DecodeSample(f, frame[cw..cw + w]);
  }

  /** A frame of `count` samples is written as exactly count * width bytes. */
  lemma EncodeFrameLength(f: SampleFormat, frame: seq<int>)
    requires FrameInRange(f, frame)
    ensures |EncodeFrame(f, frame)| == Mul(|frame|, Width(f))
  {
    CutJoin(EncodeAll(f, frame), Width(f));
  }

  /** A matrix of `n` frames of `channels` samples is written as exactly `n` frames' bytes. */
  lemma EncodeMatrixLength(f: SampleFormat, m: seq<seq<int>>, channels: nat)
    requires IsMatrix(m, channels) && AllInRange(f, m)
    ensures Uniform(EncodeFrames(f, m), FrameWidth(f, channels))
    ensures |EncodeMatrix(f, m)| == FrameBytes(f, |m|, channels)
  {
    var frames := EncodeFrames(f, m);
    forall i | 0 <= i < |m|
      ensures |frames[i]| == FrameWidth(f, channels)
    {
      EncodeFrameLength(f, m[i]);
    }
    CutJoin(frames, FrameWidth(f, channels));
  }

  /** Re-encoding the samples of a decoded frame gives back the bytes they came from. */
  lemma EncodeDecodedFrame(f: SampleFormat, raw: seq<Byte>, count: nat)
    requires Mul(count, Width(f)) <= |raw|
    ensures EncodeFrame(f, DecodeFrame(f, raw, count)) == raw[..Mul(count, Width(f))]
  {
    EncodeAllDecodeAll(f, Cut(raw, Width(f), count));
    JoinCut(raw, Width(f), count);
  }

  /**
   * Encoding a decoded matrix gives back exactly the payload bytes it was
   * read from, up to the last whole frame.
   */
  lemma EncodeDecodedMatrix(f: SampleFormat, raw: seq<Byte>, n: nat, channels: nat)
    requires FrameBytes(f, n, channels) <= |raw|
    ensures EncodeMatrix(f, DecodeMatrix(f, raw, n, channels)) == raw[..FrameBytes(f, n, channels)]
  {
    var fw := FrameWidth(f, channels);
    var frames := Cut(raw, fw, n);
    var e := EncodeFrames(f, DecodeFrames(f, frames, channels));
    forall i | 0 <= i < n
      ensures e[i] == frames[i]
    {
      EncodeDecodedFrame(f, frames[i], channels);
      assert frames[i][..fw] == frames[i];
    }
    assert e == frames;
    JoinCut(raw, fw, n);
  }

  /** Decoding the bytes written for a frame gives back the frame. */
  lemma DecodeEncodedFrame(f: SampleFormat, frame: seq<int>)
    requires FrameInRange(f, frame)
    ensures Mul(|frame|, Width(f)) <= |EncodeFrame(f, frame)|
    ensures DecodeFrame(f, EncodeFrame(f, frame), |frame|) == frame
  {
    var pieces := EncodeAll(f, frame);
    CutJoin(pieces, Width(f));
    var d := DecodeAll(f, pieces);
    forall k | 0 <= k < |frame|
      ensures d[k] == frame[k]
    {
    }
  }

  /** Decoding the bytes written for a matrix gives back the matrix. */
  lemma DecodeEncodedMatrix(f: SampleFormat, m: seq<seq<int>>, channels: nat)
    requires IsMatrix(m, channels) && AllInRange(f, m)
    ensures FrameBytes(f, |m|, channels) <= |EncodeMatrix(f, m)|
    ensures DecodeMatrix(f, EncodeMatrix(f, m), |m|, channels) == m
  {
    var frames := EncodeFrames(f, m);
    EncodeMatrixLength(f, m, channels);
    CutJoin(frames, FrameWidth(f, channels));
    var d := DecodeFrames(f, frames, channels);
    forall i | 0 <= i < |m|
      ensures d[i] == m[i]
    {
      DecodeEncodedFrame(f, m[i]);
    }
  }

  /**
   * The matrix is decoded from its first `n` frames' bytes only: a trailing
   * partial frame, or anything else after them, is never read.
   */
  lemma DecodeMatrixIgnoresRest(f: SampleFormat, b: seq<Byte>, rest: seq<Byte>, n: nat, channels: nat)
    requires FrameBytes(f, n, channels) <= |b|
    ensures DecodeMatrix(f, b + rest, n, channels) == DecodeMatrix(f, b, n, channels)
  {
    CutIgnoresRest(b, rest, FrameWidth(f, channels), n);
  }

  /** Appending a piece appends its bytes. */
  lemma {:induction false} JoinSnoc(pieces: seq<seq<Byte>>, piece: seq<Byte>)
    ensures Join(pieces + [piece]) == Join(pieces) + piece
  {
    if |pieces| > 0 {
      assert (pieces + [piece])[1..] == pieces[1..] + [piece];
      JoinSnoc(pieces[1..], piece);
    } else {
      assert pieces + [piece] == [piece];
    }
  }

  /** Writing one more sample of a frame appends that sample's bytes. */
  lemma EncodeFrameSnoc(f: SampleFormat, frame: seq<int>, c: nat)
    requires FrameInRange(f, frame) && c < |frame|
    ensures EncodeFrame(f, frame[..c + 1]) == EncodeFrame(f, frame[..c]) + EncodeSample(f, frame[c])
  {
    assert EncodeAll(f, frame[..c + 1]) == EncodeAll(f, frame[..c]) + [EncodeSample(f, frame[c])];
    JoinSnoc(EncodeAll(f, frame[..c]), EncodeSample(f, frame[c]));
  }

  /** Writing one more frame appends that frame's bytes. */
  lemma EncodeMatrixSnoc(f: SampleFormat, m: seq<seq<int>>, i: nat)
    requires AllInRange(f, m) && i < |m|
    ensures EncodeMatrix(f, m[..i + 1]) == EncodeMatrix(f, m[..i]) + EncodeFrame(f, m[i])
  {
    assert EncodeFrames(f, m[..i + 1]) == EncodeFrames(f, m[..i]) + [EncodeFrame(f, m[i])];
    JoinSnoc(EncodeFrames(f, m[..i]), EncodeFrame(f, m[i]));
  }

  /** Two matrices of the same shape with the same samples are equal. */
  lemma SameMatrix(m: seq<seq<int>>, d: seq<seq<int>>, channels: nat)
    requires |m| == |d| && IsMatrix(m, channels) && IsMatrix(d, channels)
    requires forall i, c :: 0 <= i < |m| && 0 <= c < channels ==> m[i][c] == d[i][c]
    ensures m == d
  {
    forall i | 0 <= i < |m|
      ensures m[i] == d[i]
    {
    }
  }
}
