/**
 * Linear PCM as the audio-input buffer sees it: raw bytes, the format triple
 * negotiated for each side, and the conversion of one sample between its
 * stored bytes and the signed 16-bit value the buffer works with.
 *
 * Host byte order is fixed as little-endian and the C `char` as signed.
 */
module Pcm {

  /** One byte of a PCM buffer. */
  type Byte = b: int | 0 <= b < 256

  /** A PCM layout: samples per second, interleaved channels, bytes per sample. */
  datatype Format = Format(rate: int, channels: int, bps: int)

  /** The formats the conversion code supports: positive rate and channel count, 8- or 16-bit samples. */
  predicate ValidFormat(f: Format) {
    f.rate > 0 && f.channels > 0 && (f.bps == 1 || f.bps == 2)
  }

  /** Bytes in one frame (one sample of every channel). */
  function FrameBytes(f: Format): int {
    f.channels * f.bps
  }

  /** The range of `int16_t`. */
  predicate IsInt16(s: int) {
    -32768 <= s < 32768
  }

  /** A byte read through a signed `char`. */
  function Signed8(b: Byte): (v: int)
    ensures -128 <= v < 128
    ensures v % 256 == b
  {
    if b < 128 then b else b - 256
  }

  /** An 8-bit sample widened to 16 bits: the signed byte shifted left by 8. */
  function Widen8(b: Byte): (s: int)
    ensures IsInt16(s) && s % 256 == 0
  {
    Signed8(b) * 256
  }

  /** The 16-bit sample stored little-endian in two bytes. */
  function Read16(lo: Byte, hi: Byte): (s: int)
    ensures IsInt16(s)
    ensures s % 256 == lo
  {
    var u := lo + 256 * hi;
    if u < 32768 then u else u - 65536
  }

  /** The bytes an `int16_t` store writes: low byte first. */
  function Store16(s: int): (r: seq<Byte>)
    ensures |r| == 2
  {
    [s % 256, (s / 256) % 256]
  }

  /** The byte an 8-bit output stores: the sample shifted right by 8 (arithmetic shift). */
  function Narrow8(s: int): (r: Byte)
  {
    (s / 256) % 256
  }

  /** The bytes one output sample occupies at `bps` bytes per sample. */
  function Store(bps: int, s: int): (r: seq<Byte>)
    requires bps == 1 || bps == 2
    ensures |r| == bps
  {
    if bps == 2 then Store16(s) else [Narrow8(s)]
  }

  /** The sample held by the first `bps` bytes of `b`, widened to 16 bits. */
  function Load(bps: int, b: seq<Byte>): (s: int)
    requires bps == 1 || bps == 2
    requires |b| >= bps
    ensures IsInt16(s)
  {
    if bps == 2 then Read16(b[0], b[1]) else Widen8(b[0])
  }

  /** Narrowing a widened 8-bit sample gives back the byte. */
  lemma NarrowWiden(b: Byte)
    ensures Narrow8(Widen8(b)) == b
  {
    assert Widen8(b) / 256 == Signed8(b);
  }

  /** A 16-bit sample whose low byte is zero is the widening of its high byte. */
  lemma WidenUnique(s: int, b: Byte)
    requires IsInt16(s) && s % 256 == 0 && Narrow8(s) == b
    ensures s == Widen8(b)
  {
    var q := s / 256;
    assert s == 256 * q;
    assert -128 <= q < 128;
    if q >= 0 {
      assert q % 256 == q;
    } else {
      assert q % 256 == q + 256;
    }
  }

  /** Storing a 16-bit sample read from two bytes reproduces those bytes. */
  lemma StoreRead16(lo: Byte, hi: Byte)
    ensures Store16(Read16(lo, hi)) == [lo, hi]
  {
    var u := lo + 256 * hi;
    if u < 32768 {
      assert u / 256 == hi;
    } else {
      assert (u - 65536) / 256 == hi - 256;
    }
  }

  /** Reading back the bytes of a stored 16-bit sample gives the sample. */
  lemma ReadStore16(s: int)
    requires IsInt16(s)
    ensures Read16(Store16(s)[0], Store16(s)[1]) == s
  {
    var lo, q := s % 256, s / 256;
    assert s == 256 * q + lo;
    if q >= 0 {
      assert q % 256 == q;
    } else {
      assert q % 256 == q + 256;
    }
  }

  /** Storing what `Load` reads reproduces the bytes, at either sample width. */
  lemma StoreLoad(bps: int, b: seq<Byte>)
    requires bps == 1 || bps == 2
    requires |b| >= bps
    ensures Store(bps, Load(bps, b)) == b[..bps]
  {
    if bps == 2 {
      StoreRead16(b[0], b[1]);
    } else {
      NarrowWiden(b[0]);
    }
  }

  /** 8-bit samples 0x40 and 0x7F widen to 0x4000 and 0x7F00; 0x80 (-128) widens to -32768. */
  lemma WidenExamples()
    ensures Widen8(0x40) == 0x4000 && Widen8(0x7F) == 0x7F00 && Widen8(0x80) == -32768
  {
  }
}
