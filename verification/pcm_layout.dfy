/** The waveform buffer that `Generator::generateData` lays out: its byte
    length, the frame-by-frame walk, and the encoding of one integer sample
    code into one channel slot (src/lightplayer.cpp:58-101).

    The sine and its quantisation are not modelled: `code(j)` is the integer
    the source's `static_cast` produces for phase index `j`, where `j` is the
    frame index reduced modulo the output sample rate. */
module PcmLayout {
  import opened Arith
  import opened Bytes

  /** QAudioFormat::SampleType. */
  datatype SampleType = Unknown | SignedInt | UnSignedInt | Float

  /** QAudioFormat::Endian. */
  datatype Endian = BigEndian | LittleEndian

  /** The QAudioFormat fields the generator reads. */
  datatype AudioFormat = AudioFormat(
    sampleRate: int,
    channelCount: int,
    sampleSize: int,
    codec: string,
    byteOrder: Endian,
    sampleType: SampleType)

  /** The format requested at start-up, before any device negotiation. */
  const DefaultFormat := AudioFormat(44100, 1, 16, "audio/pcm", LittleEndian, SignedInt)

  /** The duration every session asks for: `DurationSeconds * 1000000`. */
  const SessionDurationUs := 1000000

  /** The divisor in the length formula. A microsecond-to-second conversion
      would divide by 1000000; the source divides by 100000. */
  const LengthDivisor := 100000

  const IntMax := 0x7fff_ffff
  const Int64Max := 0x7fff_ffff_ffff_ffff

  /** Qt's rule for a usable format: every field set, and a codec named. */
  predicate IsValid(f: AudioFormat)
  {
    f.sampleRate != -1 && f.channelCount != -1 && f.sampleSize != -1
    && f.sampleType != Unknown && |f.codec| > 0
  }

  /** No field below zero. Zero is allowed: Qt only marks an unset field
      with -1, and a zero rate, channel count or sub-byte sample size simply
      yields an empty buffer. */
  predicate NonNegative(f: AudioFormat)
  {
    f.sampleRate >= 0 && f.channelCount >= 0 && f.sampleSize >= 0
  }

  /** The fields the frame walk divides and counts by, all in use. */
  predicate Positive(f: AudioFormat)
  {
    f.sampleRate > 0 && f.channelCount > 0 && f.sampleSize >= 8
  }

  /** `channelBytes`: whole bytes per channel slot. */
  function ChannelBytes(f: AudioFormat): (n: int)
    requires NonNegative(f)
    ensures 0 <= n && (n > 0 <==> f.sampleSize >= 8)
  {
    f.sampleSize / 8
  }

  /** `sampleBytes`: bytes per frame, one slot per channel. */
  function FrameBytes(f: AudioFormat): (n: int)
    requires NonNegative(f)
    ensures 0 <= n
    ensures n > 0 <==> f.channelCount > 0 && f.sampleSize >= 8
  {
    MulPositive(f.channelCount, ChannelBytes(f));
    f.channelCount * ChannelBytes(f)
  }

  /** The 32-bit `int` product that opens the length formula. */
  function BytesPerSecond(f: AudioFormat): (n: int)
    requires NonNegative(f)
    ensures 0 <= n
    ensures n > 0 <==> Positive(f)
  {
    MulPositive(f.sampleRate, FrameBytes(f));
    f.sampleRate * FrameBytes(f)
  }

  /** Byte length of the buffer for a duration in microseconds, as computed at
      src/lightplayer.cpp:63-64. Only a format whose rate, channel count and
      slot width are all in use yields any bytes. */
  function BufferLength(f: AudioFormat, durationUs: int): (n: int)
    requires NonNegative(f) && 0 <= durationUs
    ensures 0 <= n
    ensures n > 0 ==> Positive(f)
  {
    MulLe(0, BytesPerSecond(f), durationUs);
    BytesPerSecond(f) * durationUs / LengthDivisor
  }

  /** What `generateData` needs of its caller:
      - no field below zero (most negative fields make `QByteArray::resize`
        empty the buffer while the loop still writes through it; negative
        fields are not covered);
      - no signed overflow in the `int` products, the first one (rate times
        channels) included, nor in the `qint64` one;
      - a length that fits QByteArray's `int` size;
      - a non-negative duration (a negative one makes the `while (length)`
        loop step past zero);
      - the `Q_ASSERT` that the length is a whole number of frames.
      With a zero-byte frame the length is zero and nothing is laid out. */
  predicate CanLayOut(f: AudioFormat, durationUs: int)
  {
    && NonNegative(f)
    && 0 <= durationUs
    && f.sampleRate * f.channelCount <= IntMax
    && BytesPerSecond(f) <= IntMax
    && BytesPerSecond(f) * durationUs <= Int64Max
    && BufferLength(f, durationUs) <= IntMax
    && (FrameBytes(f) > 0 ==> BufferLength(f, durationUs) % FrameBytes(f) == 0)
  }

  /** The width/signedness pairs that have a branch in the channel loop. */
  predicate Supported(f: AudioFormat)
  {
    (f.sampleSize == 8 || f.sampleSize == 16)
    && (f.sampleType == SignedInt || f.sampleType == UnSignedInt)
  }

  /** One 8-bit slot: the code reduced to an unsigned byte, which is what
      storing a `quint8` or a `qint8` through a byte pointer leaves. */
  function Byte8(v: int): (s: seq<byte>)
  {
    [v % 256]
  }

  /** One 16-bit slot in little-endian order (`qToLittleEndian`). */
  function LittleEndian16(v: int): (s: seq<byte>)
  {
    [v % 65536 % 256, v % 65536 / 256]
  }

  /** One 16-bit slot in big-endian order (`qToBigEndian`). */
  function BigEndian16(v: int): (s: seq<byte>)
  {
    [v % 65536 / 256, v % 65536 % 256]
  }

  /** The bytes one channel slot receives for sample code `v`. */
  function Slot(f: AudioFormat, v: int): (s: seq<byte>)
    requires Supported(f)
    ensures |s| == f.sampleSize / 8
  {
    if f.sampleSize == 8 then Byte8(v)
    else if f.byteOrder == LittleEndian then LittleEndian16(v)
    else BigEndian16(v)
  }

  /** One frame: the same slot once per channel. */
  function Frame(f: AudioFormat, v: int): (s: seq<byte>)
    requires Supported(f) && NonNegative(f)
    ensures |s| == FrameBytes(f)
  {
    Repeat(Slot(f, v), f.channelCount)
  }

  /** The first `n` frames of the buffer of a supported format: frame `i`
      carries the code of phase index `i % sampleRate`. */
  function Frames(f: AudioFormat, code: nat -> int, n: nat): (s: seq<byte>)
    requires Supported(f) && NonNegative(f) && (n == 0 || f.sampleRate > 0)
    ensures |s| == n * FrameBytes(f)
  {
    if n == 0 then [] else Frames(f, code, n - 1) + Frame(f, code((n - 1) % f.sampleRate))
  }

  /** Overwrites `s` with `bytes` at offset `at`. */
  function Store(s: seq<byte>, at: nat, bytes: seq<byte>): (r: seq<byte>)
    requires at + |bytes| <= |s|
    ensures |r| == |s|
    ensures r[..at] == s[..at] && r[at + |bytes|..] == s[at + |bytes|..]
    ensures r[at .. at + |bytes|] == bytes
  {
    s[..at] + bytes + s[at + |bytes|..]
  }

  /** One pass of the channel loop's branch chain: the slot write for sample
      code `x` at offset `ptr`, or no write at all for a width/signedness
      pair without a branch. */
  function WriteSlot(f: AudioFormat, buffer: seq<byte>, ptr: nat, x: int): (r: seq<byte>)
    requires Positive(f) && ptr + ChannelBytes(f) <= |buffer|
    ensures |r| == |buffer|
    ensures Supported(f) ==> r == Store(buffer, ptr, Slot(f, x))
    ensures !Supported(f) ==> r == buffer
  {
    if f.sampleSize == 8 && f.sampleType == UnSignedInt then
      Store(buffer, ptr, Byte8(x))
    else if f.sampleSize == 8 && f.sampleType == SignedInt then
      Store(buffer, ptr, Byte8(x))
    else if f.sampleSize == 16 && f.sampleType == UnSignedInt then
      if f.byteOrder == LittleEndian then Store(buffer, ptr, LittleEndian16(x))
      else Store(buffer, ptr, BigEndian16(x))
    else if f.sampleSize == 16 && f.sampleType == SignedInt then
      if f.byteOrder == LittleEndian then Store(buffer, ptr, LittleEndian16(x))
      else Store(buffer, ptr, BigEndian16(x))
    else
      buffer
  }

  /** The channel loop of one frame: sample code `x` goes into every one of
      the frame's slots, starting at `ptr`; the pointer advances by one slot
      per channel whether or not a byte was written. */
  method FillFrame(f: AudioFormat, buffer: seq<byte>, ptr: nat, x: int)
    returns (filled: seq<byte>, next: nat)
    requires Positive(f) && ptr + FrameBytes(f) <= |buffer|
    ensures next == ptr + FrameBytes(f)
    ensures |filled| == |buffer|
    ensures filled[..ptr] == buffer[..ptr] && filled[next..] == buffer[next..]
    ensures Supported(f) ==> filled[ptr..next] == Frame(f, x)
    ensures !Supported(f) ==> filled == buffer
  {
    var channelBytes := f.sampleSize / 8;
    filled, next := buffer, ptr;
    var i := 0;
    while i < f.channelCount
      invariant 0 <= i <= f.channelCount
      invariant next == ptr + i * channelBytes
      invariant next <= ptr + FrameBytes(f)
      invariant |filled| == |buffer|
      invariant filled[..ptr] == buffer[..ptr] && filled[next..] == buffer[next..]
      invariant Supported(f) ==> filled[ptr..next] == Repeat(Slot(f, x), i)
      invariant !Supported(f) ==> filled == buffer
    {
      assert (i + 1) * channelBytes == i * channelBytes + channelBytes;
      MulLe(i + 1, f.channelCount, channelBytes);
      ghost var before := filled;
      filled := WriteSlot(f, filled, next, x);
      if Supported(f) {
        assert filled[ptr..next + channelBytes] == before[ptr..next] + Slot(f, x);
      }
      assert filled[..ptr] == before[..ptr];
      next := next + channelBytes;
      i := i + 1;
    }
  }

  /** Writing frame `i` right after the first `i` frames extends them to the
      first `i + 1`. */
  lemma FramesStep(f: AudioFormat, code: nat -> int, before: seq<byte>, after: seq<byte>, i: nat, ptr: nat)
    requires Supported(f) && Positive(f)
    requires ptr == i * FrameBytes(f) && ptr + FrameBytes(f) <= |before| == |after|
    requires before[..ptr] == Frames(f, code, i)
    requires after[..ptr] == before[..ptr]
    requires after[ptr..ptr + FrameBytes(f)] == Frame(f, code(i % f.sampleRate))
    ensures after[..ptr + FrameBytes(f)] == Frames(f, code, i + 1)
  {
    assert after[..ptr + FrameBytes(f)] == after[..ptr] + after[ptr..ptr + FrameBytes(f)];
  }

  /** The frame loop of `Generator::generateData`, `while (length)`: one
      frame per pass until `length` bytes are walked, for a format whose
      fields are all in use. `uninit` is what
      `QByteArray::resize` leaves in the new bytes, which the source does not
      initialise. */
  method WalkFrames(f: AudioFormat, code: nat -> int, uninit: seq<byte>) returns (buffer: seq<byte>, frames: nat)
    requires Positive(f) && |uninit| % FrameBytes(f) == 0
    ensures |buffer| == |uninit| && frames * FrameBytes(f) == |buffer|
    ensures Supported(f) ==> buffer == Frames(f, code, frames)
    ensures !Supported(f) ==> buffer == uninit
  {
    var sampleBytes := FrameBytes(f);
    var length := |uninit|;
    ghost var total := length;
    ghost var frameCount := total / sampleBytes;
    assert total == frameCount * sampleBytes;
    buffer := uninit;
    var ptr := 0;
    var sampleIndex := 0;
    while length != 0
      invariant 0 <= sampleIndex <= frameCount
      invariant ptr == sampleIndex * sampleBytes
      invariant length == total - ptr
      invariant |buffer| == total
      invariant buffer[ptr..] == uninit[ptr..]
      invariant Supported(f) ==> buffer[..ptr] == Frames(f, code, sampleIndex)
      invariant !Supported(f) ==> buffer == uninit
      decreases frameCount - sampleIndex
    {
      if sampleIndex == frameCount {
        assert false;
      }
      assert (sampleIndex + 1) * sampleBytes == ptr + sampleBytes;
      MulLe(sampleIndex + 1, frameCount, sampleBytes);
      var x := code(sampleIndex % f.sampleRate);
      ghost var before := buffer;
      var next;
      buffer, next := FillFrame(f, buffer, ptr, x);
      if Supported(f) {
        FramesStep(f, code, before, buffer, sampleIndex, ptr);
      }
      assert buffer[next..] == uninit[next..];
      length := length - (next - ptr);
      ptr := next;
      sampleIndex := sampleIndex + 1;
    }
    if sampleIndex < frameCount {
      MulLe(sampleIndex + 1, frameCount, sampleBytes);
    }
    frames := sampleIndex;
  }

  /** `Generator::generateData`: the byte length from the format and the
      duration, then the frame loop over a buffer resized to it. Returns the
      buffer and the number of frames the write pointer walked. */
  method GenerateData(f: AudioFormat, durationUs: int, code: nat -> int, uninit: seq<byte>)
    returns (buffer: seq<byte>, frames: nat)
    requires CanLayOut(f, durationUs)
    requires |uninit| == BufferLength(f, durationUs)
    ensures |buffer| == BufferLength(f, durationUs)
    ensures frames * FrameBytes(f) == |buffer|
    ensures !Positive(f) ==> buffer == [] && frames == 0
    ensures Supported(f) ==> (frames == 0 || f.sampleRate > 0) && buffer == Frames(f, code, frames)
    ensures !Supported(f) ==> buffer == uninit
  {
    var length := BufferLength(f, durationUs);
    if length == 0 {
      // `while (length)` does not run; every format with a zero field lands here.
      buffer, frames := uninit, 0;
    } else {
      buffer, frames := WalkFrames(f, code, uninit);
    }
  }

  /** Frame `i` of the buffer holds the frame for phase index `i % sampleRate`. */
  lemma {:induction false} FrameAt(f: AudioFormat, code: nat -> int, n: nat, i: nat)
    requires Supported(f) && Positive(f) && i < n
    ensures (i + 1) * FrameBytes(f) <= n * FrameBytes(f)
    ensures Frames(f, code, n)[i * FrameBytes(f) .. (i + 1) * FrameBytes(f)]
            == Frame(f, code(i % f.sampleRate))
  {
    var w := FrameBytes(f);
    var all := Frames(f, code, n);
    var prefix, last := Frames(f, code, n - 1), Frame(f, code((n - 1) % f.sampleRate));
    assert all == prefix + last;
    assert (i + 1) * w <= n * w by { BlockBounds(i, n, w); }
    if i < n - 1 {
      assert (i + 1) * w <= |prefix| && prefix[i * w .. (i + 1) * w] == Frame(f, code(i % f.sampleRate)) by {
        BlockBounds(i, n, w);
        FrameAt(f, code, n - 1, i);
      }
      AppendKeepsSlice(prefix, last, i * w, (i + 1) * w);
    } else {
      assert i * w == |prefix| && (i + 1) * w == |prefix| + |last| by { BlockBounds(i, n, w); }
      assert all[|prefix| .. |prefix| + |last|] == last;
    }
  }

  /** Slot `c` of a frame holds the frame's sample code. */
  lemma FrameSlot(f: AudioFormat, v: int, c: nat)
    requires Supported(f) && Positive(f) && c < f.channelCount
    ensures (c + 1) * ChannelBytes(f) <= FrameBytes(f)
    ensures Frame(f, v)[c * ChannelBytes(f) .. (c + 1) * ChannelBytes(f)] == Slot(f, v)
  {
    RepeatSlice(Slot(f, v), f.channelCount, c);
  }

  /** Every channel slot of frame `i` holds the same bytes: the encoding of
      the frame's one sample code. */
  lemma SlotAt(f: AudioFormat, code: nat -> int, n: nat, i: nat, c: nat)
    requires Supported(f) && Positive(f) && i < n && c < f.channelCount
    ensures i * FrameBytes(f) + (c + 1) * ChannelBytes(f) <= n * FrameBytes(f)
    ensures Frames(f, code, n)[i * FrameBytes(f) + c * ChannelBytes(f) ..
                               i * FrameBytes(f) + (c + 1) * ChannelBytes(f)]
            == Slot(f, code(i % f.sampleRate))
  {
    var w, x := FrameBytes(f), code(i % f.sampleRate);
    FrameAt(f, code, n, i);
    assert (i + 1) * w == i * w + w;
    FrameSlot(f, x, c);
    BlockSlice(Frames(f, code, n), Frame(f, x), Slot(f, x), i, w, c, ChannelBytes(f));
  }


  /** Frames one sample rate apart are identical: the phase index wraps on
      the output sample rate. */
  lemma FramesRepeatEverySampleRate(f: AudioFormat, code: nat -> int, n: nat, i: nat)
    requires Supported(f) && Positive(f) && i + f.sampleRate < n
    ensures (i + f.sampleRate + 1) * FrameBytes(f) <= n * FrameBytes(f)
    ensures Frames(f, code, n)[i * FrameBytes(f) .. (i + 1) * FrameBytes(f)]
            == Frames(f, code, n)[(i + f.sampleRate) * FrameBytes(f) ..
                                  (i + f.sampleRate + 1) * FrameBytes(f)]
  {
    FrameAt(f, code, n, i);
    FrameAt(f, code, n, i + f.sampleRate);
    ModMultiple(1, i, f.sampleRate);
  }

  /** Frames past a whole number of seconds start the phase over. */
  lemma {:induction false} FramesSplitAtSecond(f: AudioFormat, code: nat -> int, m: nat, n: nat)
    requires Supported(f) && Positive(f)
    ensures 0 <= m * f.sampleRate
    ensures Frames(f, code, m * f.sampleRate + n)
            == Frames(f, code, m * f.sampleRate) + Frames(f, code, n)
  {
    MulLe(0, m, f.sampleRate);
    if n > 0 {
      FramesSplitAtSecond(f, code, m, n - 1);
      ModMultiple(m, n - 1, f.sampleRate);
    }
  }

  /** A buffer of `m` seconds is `m` copies of the one-second buffer. */
  lemma {:induction false} FramesWholeSeconds(f: AudioFormat, code: nat -> int, m: nat)
    requires Supported(f) && Positive(f)
    ensures 0 <= m * f.sampleRate
    ensures Frames(f, code, m * f.sampleRate) == Repeat(Frames(f, code, f.sampleRate), m)
  {
    MulLe(0, m, f.sampleRate);
    if m > 0 {
      FramesWholeSeconds(f, code, m - 1);
      assert m * f.sampleRate == (m - 1) * f.sampleRate + f.sampleRate;
      FramesSplitAtSecond(f, code, m - 1, f.sampleRate);
    }
  }

  /** The session duration yields ten seconds of frames, not one, because of
      the 100000 divisor; the length is a whole number of frames, so the
      `Q_ASSERT` holds for every format with positive fields. */
  lemma SessionLength(f: AudioFormat)
    requires Positive(f)
    ensures BufferLength(f, SessionDurationUs) == 10 * f.sampleRate * FrameBytes(f)
    ensures BufferLength(f, SessionDurationUs) % FrameBytes(f) == 0
    ensures BufferLength(f, SessionDurationUs) / FrameBytes(f) == 10 * f.sampleRate
  {
    var bps := BytesPerSecond(f);
    assert bps * SessionDurationUs == (10 * bps) * LengthDivisor + 0;
    DivModUnique(bps * SessionDurationUs, LengthDivisor, 10 * bps, 0);
    assert 10 * f.sampleRate * FrameBytes(f) == (10 * f.sampleRate) * FrameBytes(f) + 0;
    DivModUnique(10 * f.sampleRate * FrameBytes(f), FrameBytes(f), 10 * f.sampleRate, 0);
  }

  /** The start-up format at the session duration: 882000 bytes, that is
      441000 mono 16-bit frames. */
  lemma DefaultSessionLength()
    ensures Positive(DefaultFormat) && Supported(DefaultFormat)
    ensures BufferLength(DefaultFormat, SessionDurationUs) == 882000
    ensures CanLayOut(DefaultFormat, SessionDurationUs)
  {
    SessionLength(DefaultFormat);
  }

  /** The full session buffer of a supported format is ten copies of the
      one-second buffer. */
  lemma SessionBufferIsTenSeconds(f: AudioFormat, code: nat -> int, frames: nat)
    requires Supported(f) && Positive(f)
    requires frames * FrameBytes(f) == BufferLength(f, SessionDurationUs)
    ensures frames == 10 * f.sampleRate
    ensures Frames(f, code, frames) == Repeat(Frames(f, code, f.sampleRate), 10)
  {
    SessionLength(f);
    DivModUnique(BufferLength(f, SessionDurationUs), FrameBytes(f), frames, 0);
    FramesWholeSeconds(f, code, 10);
  }

  /** Powers of two, for the code ranges. */
  function Pow2(k: nat): (p: nat)
    ensures p >= 1
  {
    if k == 0 then 1 else 2 * Pow2(k - 1)
  }

  /** The raw unsigned value a slot holds, read back in the format's order. */
  function DecodeSlot(f: AudioFormat, s: seq<byte>): (v: int)
    requires Supported(f) && |s| == f.sampleSize / 8
    ensures 0 <= v < Pow2(f.sampleSize)
  {
    assert Pow2(8) == 256;
    if f.sampleSize == 8 then s[0] as int
    else
      assert Pow2(16) == 65536;
      if f.byteOrder == LittleEndian then s[0] as int + 256 * (s[1] as int) else 256 * (s[0] as int) + s[1]
  }

  /** The codes a format can represent: `[0, 2^w)` unsigned, `[-2^(w-1), 2^(w-1))` signed. */
  predicate InCodeRange(f: AudioFormat, v: int)
    requires Supported(f)
  {
    if f.sampleType == UnSignedInt then 0 <= v < Pow2(f.sampleSize)
    else -(Pow2(f.sampleSize - 1) as int) <= v < Pow2(f.sampleSize - 1)
  }

  /** A slot read back as the format's sample type (two's complement when signed). */
  function DecodeCode(f: AudioFormat, s: seq<byte>): (v: int)
    requires Supported(f) && |s| == f.sampleSize / 8
    ensures InCodeRange(f, v)
  {
    var raw := DecodeSlot(f, s);
    assert Pow2(f.sampleSize) == 2 * Pow2(f.sampleSize - 1);
    if f.sampleType == SignedInt && raw >= Pow2(f.sampleSize - 1) then raw - Pow2(f.sampleSize) else raw
  }

  /** Every code is stored modulo `2^width`: the low byte first for little
      endian and the high byte first for big endian. */
  lemma SlotWraps(f: AudioFormat, v: int)
    requires Supported(f)
    ensures DecodeSlot(f, Slot(f, v)) == v % Pow2(f.sampleSize)
  {
    assert Pow2(8) == 256;
    assert Pow2(16) == 65536;
    if f.sampleSize == 16 {
      var w := v % 65536;
      assert w == 256 * (w / 256) + w % 256;
    }
  }

  /** Decoding a slot in the format's own order and sample type gives back
      any code the format can represent. */
  lemma SlotRoundTrip(f: AudioFormat, v: int)
    requires Supported(f) && InCodeRange(f, v)
    ensures DecodeCode(f, Slot(f, v)) == v
  {
    SlotWraps(f, v);
    var m := Pow2(f.sampleSize);
    assert m == 2 * Pow2(f.sampleSize - 1);
    if v < 0 {
      DivModUnique(v, m, -1, v + m);
    } else {
      DivModUnique(v, m, 0, v);
    }
  }
}
