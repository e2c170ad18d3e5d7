/**
 * Sample-rate and channel conversion by position mapping.
 *
 * The buffer keeps two counters: the output bytes produced so far and the
 * input bytes consumed before the blob now being written. The next output
 * sample's position is mapped to an input sample (nearest earlier input
 * frame, excess output channels reading the last input channel), that
 * sample's offset within the current blob is computed, and the sample is
 * read and widened to 16 bits if the blob holds all of it.
 *
 * The floating ratio `in_rate / out_rate` of the C code is modelled as the
 * exact rational, so the input frame is `frame * in_rate / out_rate`
 * truncated toward zero.
 */
module Resample {
  import opened Wrappers
  import opened Pcm
  import opened Arith

  /**
   * The conversion back to `int` of a non-negative frame position scaled by
   * the rate ratio: the C code multiplies by a `double` and truncates toward
   * zero, modelled here on exact integers.
   */
  function TruncDiv(a: int, b: int): (q: int)
    requires b > 0
    ensures a >= 0 ==> 0 <= a - q * b < b
    ensures a < 0 ==> -b < a - q * b <= 0
  {
    if a >= 0 then a / b else -((-a) / b)
  }

  /** The output layout the position arithmetic divides by. */
  predicate OutputReady(outF: Format) {
    outF.rate > 0 && outF.channels > 0 && outF.bps > 0
  }

  /** The input frame the output sample at byte position `sent` is taken from. */
  function InputFrame(inF: Format, outF: Format, sent: nat): int
    requires OutputReady(outF)
  {
    var frame := (sent / outF.bps) / outF.channels;
    TruncDiv(frame * inF.rate, outF.rate)
  }

  /** The input channel it is taken from: the same channel, or the last input channel when the input has fewer. */
  function InputChannel(inF: Format, outF: Format, sent: nat): int
    requires OutputReady(outF)
  {
    var channel := (sent / outF.bps) % outF.channels;
    if channel >= inF.channels then inF.channels - 1 else channel
  }

  /** The absolute index, in interleaved input samples, of the sample read for output position `sent`. */
  function SourceIndex(inF: Format, outF: Format, sent: nat): int
    requires OutputReady(outF)
  {
    InputFrame(inF, outF, sent) * inF.channels + InputChannel(inF, outF, sent)
  }

  /** The byte offset of that sample within the current blob, the first `received` input bytes being already consumed. */
  function Offset(inF: Format, outF: Format, sent: nat, received: nat): int
    requires OutputReady(outF)
  {
    SourceIndex(inF, outF, sent) * inF.bps - received
  }

  /**
   * One sample for output position `sent`, read from the blob `buf`: None
   * when the blob does not hold the whole sample or the input is neither 8-
   * nor 16-bit. The offset must not be negative, as the C code asserts.
   */
  function ReadSample(inF: Format, outF: Format, sent: nat, received: nat, buf: seq<Byte>): (r: Option<int>)
    requires OutputReady(outF)
    requires Offset(inF, outF, sent, received) >= 0
    ensures r.Some? <==> (inF.bps == 1 || inF.bps == 2) && Offset(inF, outF, sent, received) + inF.bps <= |buf|
    ensures r.Some? ==> IsInt16(r.value)
    ensures r.Some? ==> var k := Offset(inF, outF, sent, received);
      Store(inF.bps, r.value) == buf[k..k + inF.bps]
    ensures r.Some? && inF.bps == 1 ==> r.value % 256 == 0
  {
    var offset := Offset(inF, outF, sent, received);
    if |buf| - offset < inF.bps then None
    else if inF.bps == 2 then
      StoreLoad(2, buf[offset..]);
      Some(Load(2, buf[offset..]))
    else if inF.bps == 1 then
      StoreLoad(1, buf[offset..]);
      Some(Load(1, buf[offset..]))
    else None
  }

  /** An 8-bit input sample is read as its byte widened by `<< 8`: the low byte of the 16-bit sample is zero. */
  lemma ReadWidened(inF: Format, outF: Format, sent: nat, received: nat, buf: seq<Byte>)
    requires OutputReady(outF) && inF.bps == 1
    requires Offset(inF, outF, sent, received) >= 0
    requires ReadSample(inF, outF, sent, received, buf).Some?
    ensures var k := Offset(inF, outF, sent, received);
      k < |buf| && ReadSample(inF, outF, sent, received, buf) == Some(Widen8(buf[k]))
  {
    var k := Offset(inF, outF, sent, received);
    var s := ReadSample(inF, outF, sent, received, buf).value;
    assert Store(1, s) == [Narrow8(s)];
    WidenUnique(s, buf[k]);
  }

  /**
   * The invariant that keeps offsets non-negative: both formats supported and
   * the input frame of the next output position not before the first input
   * frame of the current blob.
   */
  predicate Aligned(inF: Format, outF: Format, sent: nat, received: nat) {
    ValidFormat(inF) && ValidFormat(outF) &&
    InputFrame(inF, outF, sent) * FrameBytes(inF) >= received
  }

  /** A bound on the output position past which no sample of a blob can be read. */
  function Limit(outF: Format, received: nat, length: nat): nat
    requires ValidFormat(outF)
  {
    outF.bps * (outF.channels * (outF.rate * (received + length + 1)))
  }

  /**
   * The bytes one write produces from the blob `buf`: samples read one after
   * the other from output position `sent`, each stored at the output width,
   * until the blob holds no further sample.
   */
  function Convert(inF: Format, outF: Format, sent: nat, received: nat, buf: seq<Byte>): (out: seq<Byte>)
    requires Aligned(inF, outF, sent, received)
    ensures |out| % outF.bps == 0
    ensures received % FrameBytes(inF) == 0 && |buf| % FrameBytes(inF) == 0 ==>
      Aligned(inF, outF, sent + |out|, received + |buf|)
    decreases if sent < Limit(outF, received, |buf|) then Limit(outF, received, |buf|) - sent else 0
  {
    OffsetNonNegative(inF, outF, sent, received);
    match ReadSample(inF, outF, sent, received, buf)
    case None =>
      if received % FrameBytes(inF) == 0 && |buf| % FrameBytes(inF) == 0 then
        EndOfBlob(inF, outF, sent, received, buf);
        []
      else []
    case Some(s) =>
      NextPosition(inF, outF, sent, received, buf);
      var rest := Convert(inF, outF, sent + outF.bps, received, buf);
      AddWidth(|rest|, outF.bps);
      Store(outF.bps, s) + rest
  }

  /** After a readable sample the next output position is aligned again, and still below the bound. */
  lemma NextPosition(inF: Format, outF: Format, sent: nat, received: nat, buf: seq<Byte>)
    requires Aligned(inF, outF, sent, received) && Offset(inF, outF, sent, received) >= 0
    requires ReadSample(inF, outF, sent, received, buf).Some?
    ensures Aligned(inF, outF, sent + outF.bps, received)
    ensures sent < Limit(outF, received, |buf|)
  {
    ReadBound(inF, outF, sent, received, buf);
    InputFrameMonotone(inF, outF, sent, sent + outF.bps);
    MulMono(InputFrame(inF, outF, sent), InputFrame(inF, outF, sent + outF.bps), FrameBytes(inF));
  }

  // Arithmetic helpers.

  /** Past `ob * oc * or * bound` bytes of output the mapped input frame is at least `bound`. */
  lemma PositionBound(sent: int, ob: int, oc: int, or: int, ir: int, bound: int)
    requires sent >= 0 && ob > 0 && oc > 0 && or > 0 && ir > 0 && bound >= 0
    requires sent >= ob * (oc * (or * bound))
    ensures ((sent / ob) / oc * ir) / or >= bound
  {
    DivAtLeast(sent, ob, oc * (or * bound));
    DivAtLeast(sent / ob, oc, or * bound);
    var frame := (sent / ob) / oc;
    MulMono(1, ir, frame);
    DivAtLeast(frame * ir, or, bound);
  }

  /**
   * If sample `c` of frame `f` (frames of `ch` samples of `b` bytes) ends past
   * the byte `total`, a whole number `q` of frames, then frame `f` starts at
   * or after `total`.
   */
  lemma FrameCovers(f: int, c: int, ch: int, b: int, q: int, total: int)
    requires f >= 0 && 0 <= c < ch && b > 0
    requires (f * ch + c) * b + b > total
    requires total == q * (ch * b)
    ensures f * (ch * b) >= total
  {
    assert (f * ch + c + 1) * b == (f * ch + c) * b + b;
    MulMono(f * ch + c + 1, f * ch + ch, b);
    assert (f * ch + ch) * b == (f + 1) * (ch * b);
    if f < q {
      MulMono(f + 1, q, ch * b);
    }
    MulMono(q, f, ch * b);
  }

  lemma AddWidth(x: nat, b: int)
    requires (b == 1 || b == 2) && x % b == 0
    ensures (b + x) % b == 0
  {
    if b == 2 {
      assert (2 + x) % 2 == x % 2;
    }
  }

  /** Two whole numbers of frames add up to a whole number of frames. */
  lemma WholeFrames(x: nat, y: nat, m: int)
    requires m > 0 && x % m == 0 && y % m == 0
    ensures x + y == (x / m + y / m) * m
  {
    assert x == x / m * m && y == y / m * m;
  }

  /** The input frame never moves backwards as the output position advances. */
  lemma InputFrameMonotone(inF: Format, outF: Format, sent: nat, sent': nat)
    requires ValidFormat(inF) && ValidFormat(outF) && sent <= sent'
    ensures 0 <= InputFrame(inF, outF, sent) <= InputFrame(inF, outF, sent')
  {
    ScaledFrameMono(sent, sent', outF.bps, outF.channels, inF.rate, outF.rate);
  }

  /** Sample index and frame index bound each other: `f * ch <= f * ch + c`, and the byte offset of a frame. */
  lemma IndexBytes(f: int, c: int, ch: int, b: int)
    requires f >= 0 && 0 <= c < ch && b > 0
    ensures (f * ch + c) * b >= f * (ch * b)
    ensures (f * ch + c) * b >= f
  {
    MulMono(f * ch, f * ch + c, b);
    MulMono(1, ch, f);
    MulMono(1, b, f * ch);
  }

  /** Under the invariant the offset the C code asserts on is never negative. */
  lemma OffsetNonNegative(inF: Format, outF: Format, sent: nat, received: nat)
    requires Aligned(inF, outF, sent, received)
    ensures Offset(inF, outF, sent, received) >= 0
  {
    InputFrameMonotone(inF, outF, sent, sent);
    IndexBytes(InputFrame(inF, outF, sent), InputChannel(inF, outF, sent), inF.channels, inF.bps);
  }

  /** A sample can be read only below the position bound, so `Convert` terminates. */
  lemma ReadBound(inF: Format, outF: Format, sent: nat, received: nat, buf: seq<Byte>)
    requires Aligned(inF, outF, sent, received)
    requires Offset(inF, outF, sent, received) >= 0
    requires ReadSample(inF, outF, sent, received, buf).Some?
    ensures sent < Limit(outF, received, |buf|)
  {
    var bound := received + |buf| + 1;
    InputFrameMonotone(inF, outF, sent, sent);
    var f := InputFrame(inF, outF, sent);
    IndexBytes(f, InputChannel(inF, outF, sent), inF.channels, inF.bps);
    assert f < bound;
    if sent >= Limit(outF, received, |buf|) {
      PositionBound(sent, outF.bps, outF.channels, outF.rate, inF.rate, bound);
    }
  }

  /**
   * When the blob holds no further sample and blob boundaries fall on input
   * frames, the next output position maps into the next blob or later.
   */
  lemma EndOfBlob(inF: Format, outF: Format, sent: nat, received: nat, buf: seq<Byte>)
    requires Aligned(inF, outF, sent, received)
    requires Offset(inF, outF, sent, received) >= 0
    requires ReadSample(inF, outF, sent, received, buf).None?
    requires received % FrameBytes(inF) == 0 && |buf| % FrameBytes(inF) == 0
    ensures Aligned(inF, outF, sent, received + |buf|)
  {
    InputFrameMonotone(inF, outF, sent, sent);
    var f, c := InputFrame(inF, outF, sent), InputChannel(inF, outF, sent);
    var fb := FrameBytes(inF);
    WholeFrames(received, |buf|, fb);
    FrameCovers(f, c, inF.channels, inF.bps, received / fb + |buf| / fb, received + |buf|);
  }

  // Properties of the position mapping.

  /** A readable sample is stored first, followed by the rest of the blob from the next output position. */
  lemma ConvertNext(inF: Format, outF: Format, sent: nat, received: nat, buf: seq<Byte>, s: int)
    requires Aligned(inF, outF, sent, received) && Offset(inF, outF, sent, received) >= 0
    requires ReadSample(inF, outF, sent, received, buf) == Some(s)
    ensures Aligned(inF, outF, sent + outF.bps, received)
    ensures Convert(inF, outF, sent, received, buf) == Store(outF.bps, s) + Convert(inF, outF, sent + outF.bps, received, buf)
  {
    ConvertStep(inF, outF, sent, received, buf);
  }

  /** Once no sample is readable the blob yields nothing more. */
  lemma ConvertDone(inF: Format, outF: Format, sent: nat, received: nat, buf: seq<Byte>)
    requires Aligned(inF, outF, sent, received) && Offset(inF, outF, sent, received) >= 0
    requires ReadSample(inF, outF, sent, received, buf).None?
    ensures Convert(inF, outF, sent, received, buf) == []
  {
    ConvertStep(inF, outF, sent, received, buf);
  }

  /** One step of `Convert`: a readable sample is stored, followed by the rest of the blob. */
  lemma ConvertStep(inF: Format, outF: Format, sent: nat, received: nat, buf: seq<Byte>)
    requires Aligned(inF, outF, sent, received)
    ensures Offset(inF, outF, sent, received) >= 0
    ensures ReadSample(inF, outF, sent, received, buf).Some? ==>
      Aligned(inF, outF, sent + outF.bps, received) &&
      Convert(inF, outF, sent, received, buf) ==
        Store(outF.bps, ReadSample(inF, outF, sent, received, buf).value) + Convert(inF, outF, sent + outF.bps, received, buf)
    ensures ReadSample(inF, outF, sent, received, buf).None? ==> Convert(inF, outF, sent, received, buf) == []
  {
    OffsetNonNegative(inF, outF, sent, received);
    InputFrameMonotone(inF, outF, sent, sent + outF.bps);
    MulMono(InputFrame(inF, outF, sent), InputFrame(inF, outF, sent + outF.bps), FrameBytes(inF));
  }



  /** The input frame an output frame is taken from, as a function of frame numbers alone. */
  function SourceFrame(inF: Format, outF: Format, frame: nat): int
    requires OutputReady(outF)
  {
    TruncDiv(frame * inF.rate, outF.rate)
  }

  /**
   * Sample `channel` of output frame `frame` is read from input frame
   * `SourceFrame(frame)`, channel `channel`, or the last input channel when
   * the input has fewer channels.
   */
  lemma ChannelMapping(inF: Format, outF: Format, frame: nat, channel: nat)
    requires ValidFormat(inF) && ValidFormat(outF) && channel < outF.channels
    ensures SourceIndex(inF, outF, (frame * outF.channels + channel) * outF.bps) ==
      SourceFrame(inF, outF, frame) * inF.channels + (if channel < inF.channels then channel else inF.channels - 1)
  {
    var sample := frame * outF.channels + channel;
    MulDivCancel(sample, outF.bps);
    DivModUnique(sample, outF.channels, frame, channel);
  }

  /**
   * The input frame chosen for an output frame is the last one that starts
   * at or before it in time: `r / in_rate <= frame / out_rate < (r + 1) / in_rate`.
   */
  lemma NearestEarlierFrame(inF: Format, outF: Format, frame: nat)
    requires ValidFormat(inF) && ValidFormat(outF)
    ensures var r := SourceFrame(inF, outF, frame);
      0 <= r && r * outF.rate <= frame * inF.rate < (r + 1) * outF.rate
  {
    var x := frame * inF.rate;
    MulMono(0, frame, inF.rate);
    DivMono(0, x, outF.rate);
    var r := SourceFrame(inF, outF, frame);
    assert (r + 1) * outF.rate == r * outF.rate + outF.rate;
  }

  /** Mono input played on a stereo output: both channels of an output frame carry the same input sample. */
  lemma MonoToStereo(inF: Format, outF: Format, frame: nat, received: nat, buf: seq<Byte>)
    requires ValidFormat(inF) && ValidFormat(outF) && inF.channels == 1 && outF.channels == 2
    requires Offset(inF, outF, 2 * frame * outF.bps, received) >= 0
    ensures Offset(inF, outF, (2 * frame + 1) * outF.bps, received) == Offset(inF, outF, 2 * frame * outF.bps, received)
    ensures ReadSample(inF, outF, (2 * frame + 1) * outF.bps, received, buf) == ReadSample(inF, outF, 2 * frame * outF.bps, received, buf)
  {
    ChannelMapping(inF, outF, frame, 0);
    ChannelMapping(inF, outF, frame, 1);
    assert (frame * 2 + 0) * outF.bps == 2 * frame * outF.bps;
  }

  /** Downsampling mono by a whole ratio `m` keeps every `m`-th input sample. */
  lemma WholeRatioDownsampling(inF: Format, outF: Format, k: nat, m: nat)
    requires ValidFormat(inF) && ValidFormat(outF) && inF.channels == 1 && outF.channels == 1
    requires inF.rate == m * outF.rate
    ensures SourceIndex(inF, outF, k * outF.bps) == m * k
  {
    ChannelMapping(inF, outF, k, 0);
    assert k * inF.rate == (k * m) * outF.rate;
    MulDivCancel(k * m, outF.rate);
  }

  /** 48 kHz mono input delivered as 16 kHz mono: output sample `k` is input sample `3 * k`, at byte `6 * k`. */
  lemma Downsample48kTo16k(k: nat)
    ensures SourceIndex(Format(48000, 1, 2), Format(16000, 1, 2), 2 * k) == 3 * k
    ensures Offset(Format(48000, 1, 2), Format(16000, 1, 2), 2 * k, 0) == 6 * k
  {
    var inF, outF := Format(48000, 1, 2), Format(16000, 1, 2);
    WholeRatioDownsampling(inF, outF, k, 3);
    assert k * outF.bps == 2 * k;
    assert Offset(inF, outF, 2 * k, 0) == SourceIndex(inF, outF, 2 * k) * 2;
  }

  /** With identical formats every output position maps to the input byte at the same position. */
  lemma SameFormatOffset(f: Format, sent: nat, received: nat)
    requires ValidFormat(f) && sent % f.bps == 0
    ensures Offset(f, f, sent, received) == sent - received
  {
    var sample := sent / f.bps;
    var frame, channel := sample / f.channels, sample % f.channels;
    assert sample == frame * f.channels + channel;
    assert sent == sample * f.bps;
    ChannelMapping(f, f, frame, channel);
    MulDivCancel(frame, f.rate);
  }

  /**
   * Identical input and output formats: one write copies the blob from the
   * current position up to its last whole sample.
   */
  lemma ConvertSameFormat(f: Format, sent: nat, received: nat, buf: seq<Byte>)
    requires Aligned(f, f, sent, received)
    requires sent % f.bps == 0 && received % f.bps == 0
    ensures received <= sent
    ensures Convert(f, f, sent, received, buf) ==
      if sent - received <= |buf| then buf[sent - received .. WholeEnd(|buf|, sent - received, f.bps)] else []
  {
    SameFormatBehind(f, sent, received);
    if sent - received <= |buf| {
      CopyFrom(f, sent, received, buf, sent - received);
    } else {
      SameFormatEnd(f, sent, received, buf);
    }
  }

  /** The copy made from byte `d` of the blob on: its whole samples, one at a time. */
  lemma {:induction false} CopyFrom(f: Format, sent: nat, received: nat, buf: seq<Byte>, d: nat)
    requires Aligned(f, f, sent, received) && sent % f.bps == 0
    requires received + d == sent && d <= |buf|
    ensures Convert(f, f, sent, received, buf) == buf[d..WholeEnd(|buf|, d, f.bps)]
    decreases |buf| - d
  {
    if d + f.bps <= |buf| {
      SameFormatSample(f, sent, received, buf);
      AddWidth(sent, f.bps);
      CopyFrom(f, sent + f.bps, received, buf, d + f.bps);
      assert Convert(f, f, sent, received, buf) == buf[d..d + f.bps] + buf[d + f.bps..WholeEnd(|buf|, d + f.bps, f.bps)];
      SliceStitch(buf, d, f.bps);
    } else {
      SameFormatEnd(f, sent, received, buf);
    }
  }

  /** With identical formats, the output never runs ahead of the input received. */
  lemma SameFormatBehind(f: Format, sent: nat, received: nat)
    requires Aligned(f, f, sent, received) && sent % f.bps == 0
    ensures received <= sent
  {
    OffsetNonNegative(f, f, sent, received);
    SameFormatOffset(f, sent, received);
  }

  /** With identical formats, a whole sample left in the blob is copied, and the write goes on after it. */
  lemma SameFormatSample(f: Format, sent: nat, received: nat, buf: seq<Byte>)
    requires Aligned(f, f, sent, received) && sent % f.bps == 0
    requires received <= sent && sent - received + f.bps <= |buf|
    ensures Aligned(f, f, sent + f.bps, received)
    ensures Convert(f, f, sent, received, buf) ==
      buf[sent - received..sent - received + f.bps] + Convert(f, f, sent + f.bps, received, buf)
  {
    OffsetNonNegative(f, f, sent, received);
    SameFormatOffset(f, sent, received);
    var sample := ReadSample(f, f, sent, received, buf);
    ConvertNext(f, f, sent, received, buf, sample.value);
  }

  /** With identical formats, once no whole sample is left the write produces nothing more. */
  lemma SameFormatEnd(f: Format, sent: nat, received: nat, buf: seq<Byte>)
    requires Aligned(f, f, sent, received) && sent % f.bps == 0
    requires received <= sent && sent - received + f.bps > |buf|
    ensures Convert(f, f, sent, received, buf) ==
      if sent - received <= |buf| then buf[sent - received .. WholeEnd(|buf|, sent - received, f.bps)] else []
  {
    OffsetNonNegative(f, f, sent, received);
    SameFormatOffset(f, sent, received);
    var d := sent - received;
    ConvertDone(f, f, sent, received, buf);
    if d <= |buf| {
      assert (|buf| - d) % f.bps == |buf| - d;
      assert WholeEnd(|buf|, d, f.bps) == d;
    }
  }

  /** The end of the last whole sample of width `b` in `n` bytes read from byte `d`. */
  function WholeEnd(n: nat, d: nat, b: int): (e: int)
    requires d <= n && (b == 1 || b == 2)
    ensures d <= e <= n && (e - d) % b == 0
  {
    n - (n - d) % b
  }

  /** The whole samples from byte `d` are the one at `d` followed by the whole samples from `d + b`. */
  lemma SliceStitch(buf: seq<Byte>, d: nat, b: int)
    requires (b == 1 || b == 2) && d + b <= |buf|
    ensures d + b <= WholeEnd(|buf|, d + b, b) == WholeEnd(|buf|, d, b)
    ensures buf[d..WholeEnd(|buf|, d, b)] == buf[d..d + b] + buf[d + b..WholeEnd(|buf|, d + b, b)]
  {
    SkipSample(|buf| - (d + b), b);
  }

  lemma SkipSample(x: nat, b: int)
    requires b == 1 || b == 2
    ensures (x + b) % b == x % b && x % b <= x
  {
  }

  /** A blob of whole samples written at the position where the previous one ended comes out unchanged. */
  lemma SameFormatRoundTrip(f: Format, received: nat, buf: seq<Byte>)
    requires ValidFormat(f) && received % FrameBytes(f) == 0 && |buf| % f.bps == 0
    ensures Aligned(f, f, received, received)
    ensures Convert(f, f, received, received, buf) == buf
  {
    var q := received / FrameBytes(f);
    assert received == (q * f.channels) * f.bps;
    MulDivCancel(q * f.channels, f.bps);
    MulDivCancel(q, f.channels);
    MulDivCancel(q, f.rate);
    assert received % f.bps == 0;
    ConvertSameFormat(f, received, received, buf);
    assert (|buf| - 0) % f.bps == 0;
  }

  // What goes wrong outside the invariant.

  /**
   * 16-bit mono delivered at 8 kHz after four bytes of an 8 kHz stream, when
   * the input switches to 4 kHz: output position 4 maps to input frame 1,
   * two bytes before the four bytes already received.
   */
  lemma ReopenOffset()
    ensures !Aligned(Format(4000, 1, 2), Format(8000, 1, 2), 4, 4)
    ensures Offset(Format(4000, 1, 2), Format(8000, 1, 2), 4, 4) == -2
  {
    var inF, outF := Format(4000, 1, 2), Format(8000, 1, 2);
    assert TruncDiv(2 * 4000, 8000) == 1;
    assert InputFrame(inF, outF, 4) == 1 && InputChannel(inF, outF, 4) == 0;
  }

  /**
   * A blob of half a frame breaks the invariant. Take 16-bit stereo input
   * upsampled to twice its rate, and a first blob of two bytes (half a
   * frame). It yields one output sample. The next blob starts after those
   * two bytes. Its second output position maps back to input byte 0, two
   * bytes before the blob.
   */
  lemma PartialFrameBlob(inF: Format, outF: Format, buf: seq<Byte>)
    requires ValidFormat(inF) && ValidFormat(outF) && outF.rate == 2 * inF.rate
    requires inF.channels == 2 && outF.channels == 2 && inF.bps == 2 && outF.bps == 2
    requires |buf| == 2
    ensures Aligned(inF, outF, 0, 0)
    ensures |Convert(inF, outF, 0, 0, buf)| == 2
    ensures Offset(inF, outF, 2, 2) == 0
    ensures Offset(inF, outF, 4, 2) == -2
  {
    HalfRateFrame(inF, outF, 0);
    HalfRateFrame(inF, outF, 2);
    HalfRateFrame(inF, outF, 4);
    ConvertStep(inF, outF, 0, 0, buf);
    ConvertStep(inF, outF, 2, 0, buf);
  }

  /** At twice the input rate the first two output frames map to input frame 0. */
  lemma HalfRateFrame(inF: Format, outF: Format, sent: nat)
    requires ValidFormat(inF) && ValidFormat(outF) && outF.rate == 2 * inF.rate
    requires outF.channels == 2 && outF.bps == 2 && sent < 8
    ensures InputFrame(inF, outF, sent) == 0
  {
    var frame := (sent / 2) / 2;
    assert frame == 0 || frame == 1;
    DivModUnique(frame * inF.rate, outF.rate, 0, frame * inF.rate);
  }

  /** With no input channels the very first output sample maps to the byte before the input. */
  lemma ZeroChannelsOffset()
    ensures Offset(Format(8000, 0, 1), Format(8000, 1, 2), 0, 0) == -1
  {
  }

  /**
   * At an input rate of zero every output position maps to the first input
   * sample, so a blob is never exhausted: the write loop reads the same
   * sample without end.
   */
  lemma ZeroRateRepeats(sent: nat, buf: seq<Byte>)
    requires |buf| >= 1
    ensures Offset(Format(0, 1, 1), Format(8000, 1, 2), sent, 0) == 0
    ensures ReadSample(Format(0, 1, 1), Format(8000, 1, 2), sent, 0, buf) == Some(Widen8(buf[0]))
  {
    var frame := (sent / 2) / 1;
    assert frame * 0 == 0;
    assert InputChannel(Format(0, 1, 1), Format(8000, 1, 2), sent) == 0;
  }
}
